# dicom-pipeline core, modelled in Dafny

This project models two parts of the DICOM de-identification pipeline.

The first is the hook **registry** (`loader.py`). It is a name-keyed table of post-processing handlers. It has at most one distinguished default, and lookups of unregistered names return that default.

The second is the **decision logic of the pipeline** (`pipeline.py`), with its file system, database, DICOM and subprocess I/O replaced by plain inputs. The stages run in a fixed chain:
1. choose the run directory;
2. select reviewed studies and scan them for conflicting reviews;
3. retrieve the studies;
4. anonymize them;
5. check that every study marked with a patient-protocol series had one quarantined;
6. run the post-anonymization hook;
7. push to production;
8. reconcile what was pushed with what was requested.

The source is Python 2. The model gives every string the semantics of a Python 2 byte string (`str`):
- `strip()` removes space, tab, newline, carriage return, vertical tab and form feed;
- `splitlines()` breaks at `\n`, `\r` and `\r\n`;
- `lower()` folds ASCII letters only;
- `<` on strings compares character codes.

`Text`, `Numerals` and `StringOrder` model these, along with `split`, `"%d"`, `int()` and `re.match`.

Values read through Django and sqlite are `unicode` objects in the source, not byte strings. The two places where that changes the behaviour are listed under "## Left out".

Modules, one per component:
- `Wrappers` holds `Option` and `Result`.
- `Loader` is the registry. Its errors are a `Result`: `AlreadyRegistered`, `ImproperlyConfigured`, `NotRegistered`, and the `AttributeError` described under Findings. Classes and instances are reduced to their class name and whether their `default` attribute is truthy.
- `RunSelection` covers `--runlast` and the fresh `run_at_<now>` directory.
- `StudyList` covers the `studies_to_retrieve.txt` writer and `get_study_list`.
- `ReviewScan` covers the conflict scan, the comments artifact and the halt in `get_reviewed_studies`.
- `ProtocolCoverage` covers `check_patient_protocol`.
- `Reconcile` covers `set_as_pushed`.
- `Stages` covers:
  - the stage chain and the target `main` picks;
  - the promotion of the anonymizer's log;
  - the post-anonymization artifact;
  - the normalisation of the modality list.

Two behaviours of the registry are modelled faithfully.

The constructor installs the default before registering it (loader.py:21-24). A default without its own `default` attribute is therefore also entered in the name map under its name. A default whose `default` attribute is truthy finds itself already installed and is refused. With the corrected `register` (see "## Findings") the refusal is always `ImproperlyConfigured`. As written, a default-flagged instance handed to a registry of classes raises `AttributeError` instead (loader.py:56); `Loader.NewAsWritten` models that constructor.

`choices` lists only the name map. A default installed through its `default` attribute is not in the name map, so it is never listed.

## Model

| member | source | states |
|---|---|---|
| Loader.Get | loader.py:26-30 | a registered name gives its object; any other name gives the current default, which may be none |
| Loader.Register | loader.py:32-67 | the derived name (the given one, or the class or instance's own when none or empty is given); a taken name is refused before the default check; a second default is refused; a first default replaces the absent default and leaves the name map alone; any other object adds exactly its name, mapped to it (instantiated when instances are registered), keeping every other key and the default; afterwards the name looks up the object; a registry of instances stays one |
| Loader.RegisterAsWritten | loader.py:32-67 | `register` as written: a taken name is refused first; it raises the missing-name `AttributeError` exactly when a second default arrives while the current default is an instance and classes are registered; it succeeds exactly when the corrected one does, and then the name looks up the object |
| Loader.RegisterAsWrittenDiffers | loader.py:52-59 | the registration as written differs from the corrected one exactly when a second default arrives while the current default is an instance and classes are registered, and then raises the missing-name error instead of `ImproperlyConfigured` |
| Loader.SecondDefaultRaisesMissingName | loader.py:52-56 | a concrete registry: a second default-flagged instance is refused with `AttributeError` as written and with `ImproperlyConfigured` when corrected |
| Loader.New | loader.py:17-24 | the constructor with the corrected `register`: no default gives an empty registry; a default-flagged default is refused with `ImproperlyConfigured`; any other default is installed and entered under its name, instantiated when instances are registered |
| Loader.NewAsWritten | loader.py:17-24 | the constructor as written: no default gives an empty registry; it raises the missing-name `AttributeError` exactly when classes are registered and the default is a default-flagged instance; it succeeds exactly when no default or an unflagged one is given |
| Loader.NewAsWrittenDiffers | loader.py:17-24 | the constructor as written differs from the corrected one exactly when classes are registered and the default is a default-flagged instance, and then raises `AttributeError` (loader.py:56) where the corrected one refuses with `ImproperlyConfigured` |
| Loader.Unregister | loader.py:69-82 | an absent name is refused with `NotRegistered`; a present one is removed, and no other key, the default or the mode changes |
| Loader.UnregisterAsWritten | loader.py:69-82 | `unregister` as written: given a name, it fails exactly when nothing is registered under `"str"`; given a class or instance, exactly when its own name is absent; a failure names the key looked up, and a success removes exactly that key and leaves every other entry, the default and the registration mode unchanged |
| Loader.UnregisterAsWrittenLooksUp | loader.py:69-82 | for every registry and key, `unregister` as written is the corrected `unregister` applied to the name it actually looks up, so the two differ only in which name is removed |
| Loader.UnregisterByNameFails | loader.py:75-81 | unregistering a registered name by that name fails as written, because the name of the string's class is looked up, while the corrected operation succeeds |
| Loader.RegisterUnregister | loader.py:62-82 | registering an ordinary object and unregistering its name gives back the registry it started from |
| Loader.DefaultFallback | loader.py:26-61 | after a first default is registered, every unregistered name finds it and a second default is refused |
| Loader.Choices | loader.py:84-87 | one `(name, name)` pair per registered name, every registered name listed, strictly ascending |
| Loader.LookupIsInstance | loader.py:17-30 | in a registry of instances that has only ever held instances, every lookup that finds something finds an instance, so the hook the pipeline calls is an object and not a class |
| StringOrder.Sorted | loader.py:87 | `sorted` lists exactly the given strings, once each, in ascending order |
| StringOrder.Insert | loader.py:87 | inserting into an ascending listing keeps it ascending and adds the string unless it is present |
| StringOrder.SortedUnique | loader.py:87 | two ascending listings of the same strings are equal, so the listing `choices` returns is determined by the names |
| StringOrder.BelowTransitive | loader.py:87 | Python's string order is transitive |
| StringOrder.BelowTotal | loader.py:87 | any two different strings are ordered one way or the other |
| Numerals.DecimalRoundTrip | pipeline.py:64-68 | `int()` of the digits `"%d"` writes gives the number back |
| Numerals.Decimal | pipeline.py:68 | `"%d" % n` is a non-empty string of ASCII digits with no leading zero |
| Numerals.LeadingDigits | pipeline.py:29 | the greedy `\d+` match is a digit prefix that stops at the first non-digit |
| RunSelection.RunNumber | pipeline.py:62-64 | a name matches exactly when `run_at_` is followed by a digit; the number is the value of the whole digit run that follows, which sits right after the prefix |
| RunSelection.RunNumberExamples | pipeline.py:62-68 | `run_at_007` is run 7 and `run_at_5_old` run 5, so the directory chosen for them is `run_at_7` or `run_at_5`; `run_at_` and `run_at_x1` do not match |
| RunSelection.RunNumberOfRunDirName | pipeline.py:62-68 | a run directory's name gives its number back whatever follows it that does not start with a digit, so `run_at_5_old` counts as run 5 |
| RunSelection.LastRun | pipeline.py:59-66 | the result bounds the number of every directory that matches, and is 0 or the number of one of them; non-directories are ignored |
| RunSelection.SelectRunDir | pipeline.py:57-68 | without `--runlast` or without a `data` directory, the fresh `data/run_at_<now>`; with both, `data/run_at_<n>` for the largest positive run number `n` among the listed directories, which need not be a listed name (`run_at_007` gives `run_at_7`), or the fresh one when there is none |
| Text.Strip | pipeline.py:76 | the result has no surrounding whitespace, is the input with only whitespace removed at either end, and is the input itself when that has none |
| Text.StripIdempotent | pipeline.py:76 | stripping twice is stripping once |
| Text.SplitLines | pipeline.py:74 | no line holds a line break, and a non-empty text has at least one line |
| Text.SplitLinesKeepsText | pipeline.py:74 | the lines, concatenated, are the text with its line-break characters removed: no other character is lost, added or moved |
| Text.SplitLinesCons | pipeline.py:74 | a break-free line followed by `"\n"` is the first line, and the rest of the text gives the remaining lines |
| Text.SplitLinesCrLf | pipeline.py:74 | `"\r\n"` ends one line: a break-free line followed by it is the first line, and the rest of the text gives the remaining lines |
| Text.SplitLinesCr | pipeline.py:74 | a lone `"\r"` ends a line too, when the next character is not `"\n"` |
| Text.SplitLinesLast | pipeline.py:74 | a non-empty break-free text is one line, so an unterminated last line is kept |
| Text.SplitLinesUnLines | pipeline.py:118-121 | lines without breaks, each written with `"\n"`, split back into the same lines |
| Text.UnLinesSplitLines | pipeline.py:74 | a newline-terminated text is its lines rejoined |
| Text.Lower | pipeline.py:55 | same length, no upper-case ASCII letter, each character kept or mapped to its lower-case letter, and unchanged when there was none |
| Text.Split | pipeline.py:164 | at least one part, no part holding the separator, the parts rejoined give the input |
| Text.SplitJoin | pipeline.py:164 | parts without the separator, joined with it, split back into the same parts |
| StudyList.Parse | pipeline.py:71-77 | one entry per line of the file, in order: the entry is that line stripped, so it has no surrounding whitespace and no line break |
| StudyList.Serialise | pipeline.py:118-121 | the written file is empty exactly when there are no identifiers, otherwise ends with a newline, and identifiers without line breaks are exactly its lines |
| StudyList.RoundTrip | pipeline.py:118-121 | identifiers without line breaks or surrounding whitespace are read back as written, in order and with repetitions |
| StudyList.ParseSerialised | pipeline.py:118-121 | any identifiers without line breaks are read back one per identifier written, each stripped |
| ReviewScan.ScanReviews | pipeline.py:102-109 | one notice naming the study per conflicting review, and a conflict is reported exactly when one exists |
| ReviewScan.NullFlagsNeverConflict | pipeline.py:103 | a NULL `relevant` is no conflict, while a false one is; NULL `has_phi`, `exclude` and `has_reconstruction` flags are no conflicts either |
| ReviewScan.ScanConflicts | pipeline.py:100-109 | every review of every study is scanned with no early exit; the stop flag is raised exactly when some study has a conflicting review, and the notices issued are exactly those of the reference definition `Notices` |
| ReviewScan.NoticesCount | pipeline.py:101-106 | one notice per conflicting review over all selected studies |
| ReviewScan.NoticesNameConflicts | pipeline.py:103-105 | every notice names a study that has a conflicting review |
| ReviewScan.ConflictsNoticed | pipeline.py:101-105 | every study with a conflicting review is named by some notice |
| ReviewScan.NoticesIffConflict | pipeline.py:103-104 | notices are issued exactly when the stop flag is raised, that is when some study has a conflicting review |
| ReviewScan.CommentsLayout | pipeline.py:111-116 | the comments artifact has one line per study and per review; each study's block (its `uid:` header, then one tab-indented line per review, in order) starts right after the lines of all earlier studies |
| ReviewScan.CommentsReadBack | pipeline.py:111-116 | with identifiers and comments free of line breaks, each line of the comments file is one written line |
| ReviewScan.GetReviewedStudies | pipeline.py:100-128 | the effects are the conflict notices, then the comments artifact, the study list and the count of selected studies, and last a halt exactly when some study has a conflicting review; the artifacts are written whether or not the stage halts |
| ReviewScan.AsWrittenLosesArtifacts | pipeline.py:105 | as written, a conflict means neither the comments nor the study list is written, and no orderly halt happens; without a conflict, the stage as written has the corrected stage's effects |
| ReviewScan.GetReviewedStudiesAsWritten | pipeline.py:100-128 | the stage as written: with a conflict, the one effect is the `TypeError` crash, before any notice or artifact; without one, the comments, the study list and the count are written; it never halts in an orderly way |
| ReviewScan.PhiReviewCrashes | pipeline.py:105 | one study with one review flagged as holding PHI crashes the stage as written, where the corrected one issues one notice naming that study |
| ProtocolCoverage.Contribution | pipeline.py:197-205 | one quarantined file fails exactly when a tag the check reads is missing, and otherwise adds exactly the stripped study identifier of a protocol series |
| ProtocolCoverage.FoundProtocolStudies | pipeline.py:195-205 | the walk fails exactly when some file lacks a tag it reads; otherwise it finds exactly the studies some file is a stripped, lower-cased `patient protocol` series of |
| ProtocolCoverage.Reviewed | pipeline.py:184-191 | the reviewed studies are the marked ones that the study list requested |
| ProtocolCoverage.CheckPatientProtocol | pipeline.py:191-207 | the missing studies are the reviewed ones not found: a subset of the reviewed, disjoint from the found, and covering the reviewed together with them |
| Reconcile.FoundStudies | pipeline.py:261-274 | the walk fails exactly when a visible dataset has no study identifier; otherwise it finds exactly the stripped identifiers of visible, readable datasets; dot files are ignored |
| Reconcile.Pushed | pipeline.py:279-291 | an original identifier is pushed exactly when some found study's audit row gives it, stripped; a found study without a row, or with a NULL one, adds nothing |
| Reconcile.MarkPublished | pipeline.py:280-295 | fails exactly when some reconciled study has no single record; otherwise only the records of reconciled studies become published, and no other field or record changes |
| Reconcile.MarkOne | pipeline.py:293-295 | one lookup fails exactly when the anonymized identifier does not name exactly one record |
| Reconcile.MarkPublishedInOrder | pipeline.py:280-295 | the loop over the reconciled studies, in any order, comes to the same as marking them all at once, crash included |
| Reconcile.MarkFailed | pipeline.py:306-320 | only a failed study's record that is neither published nor already in error gets the error, the date and the generic message; every other record, including one whose specific message was already set, is unchanged, and no record is added |
| Reconcile.MarkFailedIdempotent | pipeline.py:313-320 | marking the failed studies a second time changes nothing |
| Reconcile.SetAsPushed | pipeline.py:261-320 | the stage fails exactly when the walk fails or a reconciled study has no single record; otherwise it reports the found, unreconciled, pushed and failed (`requested - pushed`) studies and keeps every record key |
| Reconcile.SetAsPushedRecords | pipeline.py:280-320 | afterwards a record is published exactly when it was, or its study was found and reconciled; it is in error exactly when it was, or it was requested, not pushed and not published; pushed studies never get the error; an earlier message is kept |
| Reconcile.SetAsPushedIdempotent | pipeline.py:261-320 | running the stage again on the records it produced, with the same inputs, succeeds and changes no record |
| Reconcile.MarkingStable | pipeline.py:293-320 | publishing and failing the same studies again finds the same records and changes none |
| Stages.Ancestry | pipeline.py:90-257 | the stages run for a target are it and every stage it follows, one per rank, earliest first |
| Stages.InAncestry | pipeline.py:90-257 | a stage runs exactly when it is not later than the target |
| Stages.Target | pipeline.py:329-333 | the target is the post-anonymization stage or the last stage |
| Stages.PushOnlyForReal | pipeline.py:329-333 | the push and the reconciliation run exactly when neither `--no_push` nor `--practice` is given; the stages up to post-anonymization always run |
| Stages.FinishAnonymize | pipeline.py:171-177 | engine failure halts with the files untouched, so the in-progress log stays; success moves the in-progress log to `anonymize_output.txt` and keeps every other file; a missing log makes the move fail |
| Stages.FinishAnonymizeReplaces | pipeline.py:171-173 | the move replaces an output left by an earlier attempt |
| Stages.PostAnonArtifact | pipeline.py:232-237 | calling the looked-up hook fails exactly when the registry gives none; the artifact is `post_anon_output_practice.txt` exactly in practice mode and `post_anon_output.txt` otherwise, holding the hook's result and a newline |
| Stages.PostAnonFallsBackToDefault | pipeline.py:232-237 | once a default hook is registered, a hook name nobody registered still runs: the stage calls the default and writes its result and a newline to the practice or production artifact |
| Stages.Modalities | pipeline.py:164 | the result equals `NormaliseEach` of the option's comma-separated parts: one entry per part, in order, that part stripped and then lower-cased, although the source lower-cases before it splits; no entry holds a comma, surrounding whitespace or an upper-case letter |
| Stages.ModalitiesRoundTrip | pipeline.py:164 | lower-case, stripped codes without commas, joined by commas, are read back as written |

## Left out

- Scheduling by the pipeline library: checkpoint skipping by `@files` and resumption. Only the declared `@follows` chain and the target choice are modelled.
- External processes: the DICOM listener, retrieval and push commands, and their output artifacts (pipeline.py:132-155, 244-253). These are subprocesses and concurrency.
- The database queries (pipeline.py:93-97, 184-189). The selected studies, and the studies whose reviews mark a protocol series, are inputs. The `limit` bound is part of the query.
- DICOM parsing, `os.walk` and the sqlite audit store. They become file records with optional tags, a sequence in walk order, and a map.
- An audit table with several rows for one identifier (only the first row is used) cannot be expressed in a map.
- Reconcile.SetAsPushed: a crash is modelled as a failure with no resulting store. In the source, records published before the crash stay published, and which records those are depends on set iteration order.
- A second record with the same original identifier (`MultipleObjectsReturned` at pipeline.py:309) cannot occur, because the records are keyed by that identifier.
- NULL booleans in study records (`image_published`, `processing_error`) are not modelled; those flags are plain booleans. The review flags may be NULL and are modelled as optional booleans: a NULL flag never makes a conflict, as `None == True`, `None == False` and the truth of `None` are all false (pipeline.py:103).
- Log and standard-error messages are not modelled, with two exceptions. The conflict notice is modelled by the study it names (pipeline.py:105). The count of selected studies is modelled as `LogSelected` (pipeline.py:122). Left out are the message texts, the inverted `class`/`instance` word in the registry's messages, and the counts at pipeline.py:147, 209-210, 298 and 322.
- Reconcile.MarkFailed: a study whose record is missing is skipped. This assumes `ObjectDoesNotExist` at pipeline.py:310 is the exception Django raises for a missing record. The name is bound only through the star imports at pipeline.py:11, 16 and 22, whose modules are not part of this model.
- ReviewScan.GetReviewedStudies: a review comment holding a non-ASCII character is not modelled. In the source the comment is `unicode`, and writing it to the byte file at pipeline.py:115 raises `UnicodeEncodeError`. The crash comes after part of `comments.txt` is written and before `studies_to_retrieve.txt` is written.
- Reconcile.Pushed: the original identifier from the audit store is `unicode`, so `strip()` at pipeline.py:285 also removes Unicode whitespace such as `\x1c`–`\x1f`, `\x85` and `\xa0`. The model strips only the byte-string whitespace.
- Flushing, `fsync`, timestamps (the error date is a number handed in), `done.txt`, and the `overview.txt` log.
- Command-line parsing (pipeline.py:35-54), including `int(options.limit)`. `setup_data_dir` (pipeline.py:79-88) is directory creation and logging.
- Line order of the three protocol artifacts and of the failed-study message. It follows set iteration order; the model reports the sets.
- A `data` path that exists but is not a directory makes `os.listdir` raise. The model only distinguishes present from absent.
- The path separator is taken to be `/`.
- The hook's side effects: it receives the run directory and the log. The hook is modelled as a function of the hook object and the practice flag.
- `autodiscover` (loader.py:90-99) is an import side effect.
- Reflection is reduced to a class name and a default flag. Objects are taken to be truthy, as `if default:` and `if self.default:` assume. A Unicode identifier passed to `unregister` would be looked up as `unicode` rather than `str`.

## Findings

| source | as written | input that shows it | evidently intended | confidence | as-written member | corrected member |
|---|---|---|---|---|---|---|
| loader.py:75-78 | `hasattr(name, '__class__')` holds of a string too, so a name passed to `unregister` is replaced by `"str"` | `unregister("Anonymize")` on a registry holding `Anonymize` and nothing under `str` raises `NotRegistered` | a string is the name to remove | high; not executed | Loader.UnregisterByNameFails | Loader.Unregister |
| loader.py:52-56 | when classes are registered (`register_instance` false), the message reads `self.default.__name__`, which an instance lacks | a registry with `register_instance=False` given one default-flagged instance and then another raises `AttributeError` | `ImproperlyConfigured` for a second default | high; not executed | Loader.SecondDefaultRaisesMissingName | Loader.Register |
| loader.py:21-24 | the constructor installs the default and then registers it, reaching the same message formatting | `Registry(default=d, register_instance=False)` with `d` an instance whose `default` attribute is true raises `AttributeError` | `ImproperlyConfigured` | high; not executed | Loader.NewAsWrittenDiffers | Loader.New |
| pipeline.py:105 | the conflict notice formats the study identifier with `%d`; the identifier is a string, since line 120 concatenates it with `"\n"` | one selected study whose single review has `has_phi` set raises `TypeError` before the notice, the comments artifact and the study list are written | log the notice, write both artifacts, then halt | high; not executed | ReviewScan.PhiReviewCrashes | ReviewScan.GetReviewedStudies |
