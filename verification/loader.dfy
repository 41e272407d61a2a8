/** The hook registry: a name-keyed table of post-processing handlers with at
    most one distinguished default, returned for names nobody registered.

    Python classes and instances are abstracted to what the registry looks at:
    a class's `__name__` and whether its `default` attribute is truthy. */
module Loader {
  import opened Wrappers
  import opened StringOrder

  /** A Python class: its `__name__`, and whether `getattr(cls, 'default', False)` is truthy. */
  datatype Class = Class(name: string, isDefault: bool)

  /** What can be handed to the registry: a class, or an instance of one. */
  datatype Obj = ClassObj(cls: Class) | Instance(cls: Class) {

    /** The name derived for it: `obj.__name__` for a class,
        `obj.__class__.__name__` for an instance. */
    function OwnName(): string {
      cls.name
    }

    /** `getattr(obj, 'default', False)`: an instance sees its class's attribute. */
    predicate FlaggedDefault() {
      cls.isDefault
    }
  }

  /** The registry's fields: `register_instance`, `default` (`None` is `None`)
      and the name map `_registry`. */
  datatype Registry = Registry(registerInstance: bool, default: Option<Obj>, entries: map<string, Obj>)

  /** The exceptions the registry raises. `MissingName` is the `AttributeError`
      that formatting the second-default message can raise. */
  datatype RegistryError =
    | AlreadyRegistered(name: string)
    | ImproperlyConfigured
    | NotRegistered(name: string)
    | MissingName

  /** A registry built with `register_instance` set only ever holds instances. */
  predicate Valid(reg: Registry) {
    reg.registerInstance ==>
      && (reg.default.Some? ==> reg.default.value.Instance?)
      && (forall k :: k in reg.entries ==> reg.entries[k].Instance?)
  }

  /** What is stored for `obj`: a class is instantiated when instances are registered. */
  function Stored(registerInstance: bool, obj: Obj): Obj {
    if registerInstance && obj.ClassObj? then Instance(obj.cls) else obj
  }

  /** `name or obj.__name__`: an absent or empty name is replaced by the object's own. */
  function NameFor(obj: Obj, name: Option<string>): string {
    if name.Some? && name.value != "" then name.value else obj.OwnName()
  }

  /** `registry[name]` and `registry.get(name)`: the object registered under
      `name`, otherwise the current default, which may be `None`. */
  function Get(reg: Registry, name: string): (r: Option<Obj>)
    ensures name in reg.entries ==> r == Some(reg.entries[name])
    ensures name !in reg.entries ==> r == reg.default
  {
    if name in reg.entries then Some(reg.entries[name]) else reg.default
  }

  /** `register(obj, name)`. A taken name is refused before anything else; a
      default-flagged object becomes the default unless there already is one,
      and is then not entered in the name map; any other object is entered
      under its name. Either way, looking the name up afterwards finds it. */
  function Register(reg: Registry, obj: Obj, name: Option<string>): (r: Result<Registry, RegistryError>)
    ensures var n, o := NameFor(obj, name), Stored(reg.registerInstance, obj);
      && (n in reg.entries ==> r == Failure(AlreadyRegistered(n)))
      && (n !in reg.entries && o.FlaggedDefault() && reg.default.Some? ==> r == Failure(ImproperlyConfigured))
      && (r.Success? <==> n !in reg.entries && !(o.FlaggedDefault() && reg.default.Some?))
      && (r.Success? ==> Get(r.value, n) == Some(o) && r.value.registerInstance == reg.registerInstance)
      && (r.Success? && o.FlaggedDefault() ==> r.value.entries == reg.entries && r.value.default == Some(o))
      && (r.Success? && !o.FlaggedDefault() ==>
            && r.value.default == reg.default
            && r.value.entries.Keys == reg.entries.Keys + {n}
            && (forall k :: k in reg.entries ==> r.value.entries[k] == reg.entries[k]))
    ensures Valid(reg) && r.Success? ==> Valid(r.value)
  {
    var n := NameFor(obj, name);
    var o := Stored(reg.registerInstance, obj);
    if n in reg.entries then Failure(AlreadyRegistered(n))
    else if o.FlaggedDefault() then
      if reg.default.Some? then Failure(ImproperlyConfigured)
      else Success(reg.(default := Some(o)))
    else Success(reg.(entries := reg.entries[n := o]))
  }

  /** `register` as written: when a second default arrives, the message names
      the current default through `self.default.__name__` if instances are not
      being registered, and an instance has no `__name__`. */
  function RegisterAsWritten(reg: Registry, obj: Obj, name: Option<string>): (r: Result<Registry, RegistryError>)
    ensures var n, o := NameFor(obj, name), Stored(reg.registerInstance, obj);
      && (n in reg.entries ==> r == Failure(AlreadyRegistered(n)))
      && (r == Failure(MissingName) <==>
            n !in reg.entries && o.FlaggedDefault() && reg.default.Some? && reg.default.value.Instance? && !reg.registerInstance)
      && (r.Success? <==> n !in reg.entries && !(o.FlaggedDefault() && reg.default.Some?))
      && (r.Success? ==> Get(r.value, n) == Some(o))
  {
    var n := NameFor(obj, name);
    var o := Stored(reg.registerInstance, obj);
    if n in reg.entries then Failure(AlreadyRegistered(n))
    else if o.FlaggedDefault() then
      if reg.default.Some? then
        if !reg.registerInstance && reg.default.value.Instance? then Failure(MissingName)
        else Failure(ImproperlyConfigured)
      else Success(reg.(default := Some(o)))
    else Success(reg.(entries := reg.entries[n := o]))
  }

  /** The two differ exactly on a second default arriving while the current
      default is an instance and instances are not being registered. */
  lemma RegisterAsWrittenDiffers(reg: Registry, obj: Obj, name: Option<string>)
    ensures RegisterAsWritten(reg, obj, name) != Register(reg, obj, name) <==>
      && NameFor(obj, name) !in reg.entries
      && obj.FlaggedDefault()
      && reg.default.Some? && reg.default.value.Instance?
      && !reg.registerInstance
    ensures RegisterAsWritten(reg, obj, name) != Register(reg, obj, name) ==>
      RegisterAsWritten(reg, obj, name) == Failure(MissingName) && Register(reg, obj, name) == Failure(ImproperlyConfigured)
  {
  }

  /** A registry that registers classes, given one default-flagged instance and
      then another: the second is refused with `AttributeError`, not with
      `ImproperlyConfigured`. */
  lemma SecondDefaultRaisesMissingName()
    ensures var first := Register(Registry(false, None, map[]), Instance(Class("Anonymize", true)), None);
      && first.Success?
      && RegisterAsWritten(first.value, Instance(Class("Publish", true)), None) == Failure(MissingName)
      && Register(first.value, Instance(Class("Publish", true)), None) == Failure(ImproperlyConfigured)
  {
  }

  /** `Registry(default, default_name, register_instance)`, built on the
      corrected `register`: the default is installed first and then registered
      like any object. An unflagged default is therefore also entered in the
      name map; a default-flagged one finds itself already installed and is
      refused with `ImproperlyConfigured`. `NewAsWritten` is the constructor
      as written. */
  function New(registerInstance: bool, default: Option<Obj>, defaultName: Option<string>): (r: Result<Registry, RegistryError>)
    ensures default.None? ==> r == Success(Registry(registerInstance, None, map[]))
    ensures default.Some? && default.value.FlaggedDefault() ==> r == Failure(ImproperlyConfigured)
    ensures default.Some? && !default.value.FlaggedDefault() ==>
      var d := Stored(registerInstance, default.value);
      r == Success(Registry(registerInstance, Some(d), map[NameFor(d, defaultName) := d]))
    ensures r.Success? ==> Valid(r.value)
  {
    var d := if default.Some? then Some(Stored(registerInstance, default.value)) else None;
    var reg := Registry(registerInstance, d, map[]);
    if d.Some? then Register(reg, d.value, defaultName) else Success(reg)
  }

  /** The constructor as written: it registers the installed default through
      `register` as written, so the second-default message is formatted. */
  function NewAsWritten(registerInstance: bool, default: Option<Obj>, defaultName: Option<string>): (r: Result<Registry, RegistryError>)
    ensures default.None? ==> r == Success(Registry(registerInstance, None, map[]))
    ensures r == Failure(MissingName) <==>
      default.Some? && default.value.Instance? && default.value.FlaggedDefault() && !registerInstance
    ensures r.Success? <==> default.None? || !default.value.FlaggedDefault()
  {
    var d := if default.Some? then Some(Stored(registerInstance, default.value)) else None;
    var reg := Registry(registerInstance, d, map[]);
    if d.Some? then RegisterAsWritten(reg, d.value, defaultName) else Success(reg)
  }

  /** The constructor as written differs from the corrected one exactly when
      classes are registered and the default is a default-flagged instance:
      that instance, installed first, is then named through `__name__`, which
      it lacks. */
  lemma NewAsWrittenDiffers(registerInstance: bool, default: Option<Obj>, defaultName: Option<string>)
    ensures NewAsWritten(registerInstance, default, defaultName) != New(registerInstance, default, defaultName) <==>
      && default.Some? && default.value.Instance? && default.value.FlaggedDefault()
      && !registerInstance
    ensures NewAsWritten(registerInstance, default, defaultName) != New(registerInstance, default, defaultName) ==>
      && NewAsWritten(registerInstance, default, defaultName) == Failure(MissingName)
      && New(registerInstance, default, defaultName) == Failure(ImproperlyConfigured)
  {
    if default.Some? {
      var d := Stored(registerInstance, default.value);
      RegisterAsWrittenDiffers(Registry(registerInstance, Some(d), map[]), d, defaultName);
    }
  }

  /** What `unregister` is handed: a name, or a class or instance whose name is meant. */
  datatype Key = ByName(name: string) | ByObject(obj: Obj)

  /** The name a key stands for. */
  function KeyName(key: Key): string {
    match key
    case ByName(s) => s
    case ByObject(o) => o.OwnName()
  }

  /** The name `unregister` actually looks up: a `str` has a `__class__` too, so
      a name is replaced by its class's name, `"str"`. */
  function KeyNameAsWritten(key: Key): string {
    match key
    case ByName(_) => "str"
    case ByObject(o) => o.OwnName()
  }

  /** `unregister(name)`: an absent name raises `NotRegistered`; a present one
      is removed, and nothing else changes. */
  function Unregister(reg: Registry, key: Key): (r: Result<Registry, RegistryError>)
    ensures var n := KeyName(key);
      && (r.Failure? <==> n !in reg.entries)
      && (r.Failure? ==> r.error == NotRegistered(n))
      && (r.Success? ==>
            && r.value.entries.Keys == reg.entries.Keys - {n}
            && (forall k :: k in r.value.entries ==> r.value.entries[k] == reg.entries[k])
            && r.value.default == reg.default
            && r.value.registerInstance == reg.registerInstance)
    ensures Valid(reg) && r.Success? ==> Valid(r.value)
  {
    var n := KeyName(key);
    if n !in reg.entries then Failure(NotRegistered(n))
    else Success(reg.(entries := reg.entries - {n}))
  }

  /** `unregister` as written, with a name looked up through `KeyNameAsWritten`. */
  function UnregisterAsWritten(reg: Registry, key: Key): (r: Result<Registry, RegistryError>)
    ensures key.ByName? ==> (r.Failure? <==> "str" !in reg.entries)
    ensures key.ByObject? ==> (r.Failure? <==> key.obj.OwnName() !in reg.entries)
    ensures r.Failure? ==> r.error == NotRegistered(KeyNameAsWritten(key))
    ensures r.Success? ==>
      && r.value.entries.Keys == reg.entries.Keys - {KeyNameAsWritten(key)}
      && (forall k :: k in r.value.entries ==> r.value.entries[k] == reg.entries[k])
      && r.value.default == reg.default
      && r.value.registerInstance == reg.registerInstance
  {
    var n := KeyNameAsWritten(key);
    if n !in reg.entries then Failure(NotRegistered(n))
    else Success(reg.(entries := reg.entries - {n}))
  }

  /** As written, `unregister` is the corrected one applied to the name it
      actually looks up: the same refusal, and the same removal with nothing
      else changed. */
  lemma UnregisterAsWrittenLooksUp(reg: Registry, key: Key)
    ensures UnregisterAsWritten(reg, key) == Unregister(reg, ByName(KeyNameAsWritten(key)))
  {
  }

  /** Unregistering a registered name by that name fails as written, unless
      something happens to be registered under `"str"`. */
  lemma UnregisterByNameFails(reg: Registry, name: string)
    requires name in reg.entries && "str" !in reg.entries
    ensures UnregisterAsWritten(reg, ByName(name)) == Failure(NotRegistered("str"))
    ensures Unregister(reg, ByName(name)).Success?
  {
  }

  /** Registering an ordinary object and unregistering its name restores the registry. */
  lemma RegisterUnregister(reg: Registry, obj: Obj, name: Option<string>)
    requires Register(reg, obj, name).Success?
    requires !obj.FlaggedDefault()
    ensures Unregister(Register(reg, obj, name).value, ByName(NameFor(obj, name))) == Success(reg)
  {
    var n := NameFor(obj, name);
    var after := Register(reg, obj, name).value;
    assert after.entries == reg.entries[n := Stored(reg.registerInstance, obj)];
    assert after.entries - {n} == reg.entries;
  }

  /** Once a default is registered, every name nobody registered finds it, and
      a second default is refused. */
  lemma DefaultFallback(reg: Registry, first: Obj, second: Obj, missing: string)
    requires reg.default.None?
    requires first.FlaggedDefault() && second.FlaggedDefault()
    requires NameFor(first, None) !in reg.entries && NameFor(second, None) !in reg.entries
    requires missing !in reg.entries
    ensures Register(reg, first, None).Success?
    ensures Get(Register(reg, first, None).value, missing) == Some(Stored(reg.registerInstance, first))
    ensures Register(Register(reg, first, None).value, second, None) == Failure(ImproperlyConfigured)
  {
  }

  /** In a registry of instances that only ever held instances, whatever a
      lookup returns is an instance: the post-anonymization stage calls a hook
      object, never a class it would merely construct. */
  lemma LookupIsInstance(reg: Registry, name: string)
    requires Valid(reg) && reg.registerInstance
    ensures Get(reg, name).Some? ==> Get(reg, name).value.Instance?
  {
    if name in reg.entries {
      assert reg.entries[name].Instance?;
    }
  }

  /** `choices`: one `(name, name)` pair per registered name, ascending. A
      default that was not registered under a name is not listed. */
  method Choices(reg: Registry) returns (c: seq<(string, string)>)
    ensures |c| == |reg.entries|
    ensures forall i :: 0 <= i < |c| ==> c[i].0 == c[i].1 && c[i].0 in reg.entries
    ensures forall k :: k in reg.entries ==> (k, k) in c
    ensures forall i, j :: 0 <= i < j < |c| ==> Below(c[i].0, c[j].0)
  {
    var names := Sorted(reg.entries.Keys);
    c := seq(|names|, i requires 0 <= i < |names| => (names[i], names[i]));
    forall k | k in reg.entries
      ensures (k, k) in c
    {
      var i :| 0 <= i < |names| && names[i] == k;
      assert c[i] == (k, k);
    }
  }
}
