# Simple INI configuration store, in Dafny

This project models the core of a small C++ header-only INI library.
The model has two classes.

`Simple::Config` holds one INI file in memory as an ordered list of sections.
Each section holds an ordered list of `key=value` entries, and each entry may
carry a comment.
- `ReadFile` trims and classifies every line of the file. The classes are
  empty, comment, section header, and key/value.
- `SetValue` validates the section and key names, normalises the comment, and
  then either overwrites the first matching entry or appends a new one.
- The `GetValue` overloads read back text or integers. The integer overloads
  use `strtol` with base 0.
- `DeleteKey` and `DeleteSection` erase the first match. Each then writes the
  file when asked to.
- `GetConfigString` and `UpdateFile` write the store back as text.

`Simple::ConfigManager` maps file paths to `Config` objects. It loads a path the
first time the path is used and then forwards each call to that store.

The modules follow the program's structure:

| file | module | contents |
|---|---|---|
| text.dfy | IniText | trimming, name validation, the header and key/value line scanners, `getline` splitting |
| numbers.dfy | IniNumbers | `strtol(…, 0)` with the full-consumption check, and `std::to_string` |
| store.dfy | IniStore | the store as values, plus lookups, insert, SetValue, the GetValue forms and the deletions, as functions with lemmas |
| parse.dfy | IniParse | the ReadFile loop as a fold over lines, with its parsing rules |
| serialize.dfy | IniSerialize | GetConfigString's text, and the round trip from writing to reading again |
| config.dfy | IniConfig | `class Config`: the imperative methods, each proved to produce what the IniStore/IniParse/IniSerialize function says |
| manager.dfy | IniManager | `class ConfigManager`: the path cache and the forwarding methods |

Outside effects become parameters:
- File reading is a parameter `content: Option<string>`, where `None` means
  the file cannot be opened.
- Whether creating a missing file works is `createOk`.
- Whether a write works is `writeOk`.
- The text of the last successful write is kept in the field `Config.written`.

`Config.Valid()` is the class invariant: no two sections share a name and no
two entries of a section share a key. Every `Config` method that changes the
store keeps it, and `ConfigManager.Valid()` requires it of every registered
store.

### Behaviour that may surprise (the model follows the code)

- A section header alone does not create a section. It only sets the current
  section. A section appears with its first entry (`HeaderOnlyFileIsEmpty`,
  `HeaderCreatesNoSection`). As a result, a section that `DeleteKey` leaves
  empty disappears when the file is read again: the store read back is the one
  `DeleteSection` would have left (`EmptySectionDropped`).
- A bracket-shaped line that is not a valid header is not skipped. It is
  classified as a key/value line next: `[a=b]` stores key `[a` with value `b]`
  (`BracketedEntryFallsThrough`).
- The trailing comment is trimmed, not stored verbatim.
- An `=` also ends the value.
- The comment is matched by the regex `.*`. In ECMAScript `.` does not match a
  carriage return, so a line whose comment part contains `\r` is not a
  key/value line at all.

## Model

| member | source | states |
|---|---|---|
| IniText.Trim | source/simple_config.h:459-489 | the trimmed text has no leading or trailing space, tab, CR or LF |
| IniText.TrimLeftRightSpace | source/simple_config.h:459-489 | the two pointer loops return exactly `Trim(src)` |
| IniText.TrimKeeps | source/simple_config.h:459-489 | trimming only removes characters: a property of every character survives |
| IniText.TrimUnique | source/simple_config.h:459-489 | white space around a trimmed text is removed, and the text itself is kept |
| IniText.TrimIdempotent | source/simple_config.h:459-489 | trimming twice equals trimming once |
| IniText.TrimAllSpace | source/simple_config.h:459-489 | a text of only white space trims to empty |
| IniText.TrimNonEmpty | source/simple_config.h:459-489 | a text not starting with white space keeps its start and loses only trailing white space |
| IniText.IsValidSectionName | source/simple_config.h:372-383 | a section name that passes IsValidSectionString is trimmed and holds no newline |
| IniText.IsValidKeyName | source/simple_config.h:385-396 | a key that passes IsValidKeyString holds none of `=#;`, is trimmed and holds no newline |
| IniText.IsCommentLine | source/simple_config.h:331-336 | a line starting with `;` or `#` is neither a header nor a key/value line |
| IniText.ParseSectionLine | source/simple_config.h:338-354 | every name the header scanner returns is a valid section name |
| IniText.SectionLineAccepts | source/simple_config.h:338-354 | `[` + blanks + valid name + blanks + `]` is recognised with exactly that name |
| IniText.SectionLineShape | source/simple_config.h:338-354 | a recognised header line is `[` + blanks + the returned name + blanks + `]` |
| IniText.ParseKeyValueLine | source/simple_config.h:356-370 | a line starting with `=`, `#` or `;` is rejected; a recognised line gives trimmed parts, with no `=#;` in the key or value, and a comment that is empty or starts with one of those characters and holds no line break; the full acceptance rule and the split are stated by ScanKeyValue, NoSeparatorRejected, CommentBeforeEqualsRejected and LineBreakAfterValueRejected |
| IniText.ScanKeyValue | source/simple_config.h:360-368 | a line `key=rest` whose non-empty key holds no `=#;`, and whose comment part holds no line break, is accepted: the key, the value (the text up to the next `=#;`) and the comment (the rest) are each trimmed |
| IniText.NoSeparatorRejected | source/simple_config.h:360-364 | a line with no `=`, `#` or `;` is rejected |
| IniText.CommentBeforeEqualsRejected | source/simple_config.h:360-364 | a line whose first `=#;` character is `#` or `;` is rejected, so `a#b=c` is not a key/value line |
| IniText.LineBreakAfterValueRejected | source/simple_config.h:360-364 | a line whose comment part holds a line break is rejected, because `.*` matches no line break; with the three lemmas above and the first clause of ParseKeyValueLine, every line is either accepted with the stated split or rejected |
| IniText.ParsedEntryShape | source/simple_config.h:356-370 | on a line that does not start with white space, the recognised key is not empty |
| IniText.EntryLineRoundTrip | source/simple_config.h:356-370 | the line GetConfigString writes for a well-shaped entry scans back to the same entry |
| IniText.EntryLineIsTrimmed | source/simple_config.h:443-451 | the written entry line is already trimmed and starts with the key |
| IniText.GetLines | source/simple_config.h:131 | the lines that `getline` yields contain no newline; which lines they are is stated by GetLinesJoinLines (terminated lines) and GetLinesLastLine (an unterminated last line) |
| IniText.GetLinesJoinLines | source/simple_config.h:131 | splitting newline-terminated lines gives them back unchanged |
| IniText.GetLinesLastLine | source/simple_config.h:131 | a non-empty last line without a final newline is read as a line of its own, after the newline-terminated lines before it |
| IniNumbers.StrToLong | source/simple_config.h:509-516 | a conversion succeeds only if it consumed the text up to its NUL, ending on a digit |
| IniNumbers.StrToLongPlain | source/simple_config.h:509-516 | without leading white space or an embedded NUL, only the sign and digits decide |
| IniNumbers.IntToString | source/simple_config.h:219-226 | `to_string` of an integer is non-empty, starts with `-` exactly when the integer is negative, and is otherwise decimal digits |
| IniNumbers.IntToStringRoundTrip | source/simple_config.h:244-257 | every integer's `to_string` text converts back to that integer |
| IniNumbers.DecimalMagnitude | source/simple_config.h:509-516 | base 0 reads a decimal numeral back to its value |
| IniNumbers.RejectsTrailingText | source/simple_config.h:509-516 | "123abc" is rejected because the end pointer is not at the NUL |
| IniNumbers.AcceptsDecimal | source/simple_config.h:509-516 | "123" converts to 123 |
| IniNumbers.DetectsHex | source/simple_config.h:509-516 | base 0 reads "0x1A" as hexadecimal 26 |
| IniNumbers.DetectsOctal | source/simple_config.h:509-516 | base 0 reads "010" as octal 8 |
| IniNumbers.AcceptsSpaceAndSign | source/simple_config.h:509-516 | leading white space and a sign are accepted: " -7" converts to -7 |
| IniStore.FindSection | source/simple_config.h:398-410 | the result is the index of the first section with that name, or none when no section has it |
| IniStore.FindKey | source/simple_config.h:412-424 | the result is the index of the first entry with that key, or none when no entry has it |
| IniStore.FirstSectionUnique | source/simple_config.h:398-410 | "first section with this name" picks exactly one answer |
| IniStore.FirstKeyUnique | source/simple_config.h:412-424 | "first entry with this key" picks exactly one answer |
| IniStore.SameNamesSameFind | source/simple_config.h:398-410 | the section search depends only on the names, in order |
| IniStore.KeyLookup | source/simple_config.h:412-424 | an entry is found if and only if the key occurs, and it is an entry with that key |
| IniStore.GetSection | source/simple_config.h:259-266 | the entries of a section with that name, or empty when there is none |
| IniStore.Lookup | source/simple_config.h:426-432 | found if and only if the key is in the section GetSection returns, and the entry has that key |
| IniStore.PutEntry | source/simple_config.h:317-328 | the new entry is in the list, the list grows by one exactly when the key was absent, and every entry is the new one or an old one |
| IniStore.PutEntryLookup | source/simple_config.h:317-328 | after overwrite-or-append, the key gives the new entry and every other key is unchanged |
| IniStore.InsertEntry | source/simple_config.h:308-329 | section `s` exists afterwards, and the section count grows by one exactly when it did not exist before |
| IniStore.InsertEntryLookup | source/simple_config.h:308-329 | after InsertKeyValue, (s, key) gives the new entry and every other (section, key) pair is unchanged |
| IniStore.InsertEntrySections | source/simple_config.h:308-329 | only section `s` changes, by overwrite-or-append |
| IniStore.InsertEntryNames | source/simple_config.h:308-329 | the section order is kept, and a new section is appended at the end |
| IniStore.PutEntryKeys | source/simple_config.h:317-328 | overwrite-or-append keeps the keys and their order, and appends a new key at the end |
| IniStore.InsertEntryKeys | source/simple_config.h:308-329 | the key order of the section is kept, and a new key is appended at the end |
| IniStore.InsertEntryDistinct | source/simple_config.h:308-329 | no duplicate section name or key is introduced |
| IniStore.NormalizeComment | source/simple_config.h:182-188 | the stored comment is empty exactly when the trimmed comment is; a trimmed comment already starting with `;` or `#` is stored as it is; otherwise `# ` is put before it |
| IniStore.StoredComment | source/simple_config.h:182-204 | a new entry, `replace`, or a non-empty comment stores the normalised comment; otherwise the existing entry keeps its comment |
| IniStore.SetValue | source/simple_config.h:172-208 | a rejected section or key name leaves the store unchanged; an accepted one leaves section `s` present, with one more section exactly when it was missing |
| IniStore.SetValueRejectsBadNames | source/simple_config.h:172-180 | a section name starting with a digit (`1bad`) or a key ending in a space (`bad `) leaves the store unchanged |
| IniStore.SetValueStores | source/simple_config.h:172-208 | after an accepted SetValue, (s, k) holds exactly the value, with the normalised comment, or the old comment when the new one is empty and `replace` is false |
| IniStore.SetValueKeepsOthers | source/simple_config.h:172-208 | every other (section, key) pair reads as before, including when the names are rejected |
| IniStore.SetValueOrder | source/simple_config.h:172-208 | a new section or key is appended at the end, existing order is kept, and other sections are unchanged |
| IniStore.SetValueDistinct | source/simple_config.h:172-208 | SetValue never creates a duplicate section or key |
| IniStore.GetValue | source/simple_config.h:228-235 | a present, non-empty value is returned; otherwise the default is returned unmodified |
| IniStore.GetValueInt | source/simple_config.h:244-257 | the converted number when `strtol` consumes the whole value, the default otherwise |
| IniStore.GetValueAfterSetValue | source/simple_config.h:228-235 | reading after an accepted SetValue gives the value written, or the default when that value is empty |
| IniStore.GetValueIntAfterSetValue | source/simple_config.h:244-257 | an integer stored through `to_string` reads back equal |
| IniStore.GetValueIntRejectsTrailingText | source/simple_config.h:244-257 | a stored "123abc" reads as the default |
| IniStore.RemoveKey | source/simple_config.h:268-289 | DeleteKey keeps every section and every section name in place |
| IniStore.RemoveKeyAbsent | source/simple_config.h:268-289 | deleting a missing key changes nothing |
| IniStore.RemoveKeyEffect | source/simple_config.h:268-289 | section `s` loses exactly its first entry `k` and keeps the other entries in order; every other section and all names are kept |
| IniStore.RemoveKeyRemoves | source/simple_config.h:268-289 | without duplicates, the key is gone afterwards |
| IniStore.RemoveKeyDistinct | source/simple_config.h:268-289 | DeleteKey keeps names and keys unique |
| IniStore.RemoveSection | source/simple_config.h:291-305 | one section fewer exactly when `s` was present, and every section left was there before |
| IniStore.RemoveSectionAbsent | source/simple_config.h:291-305 | deleting a missing section changes nothing |
| IniStore.RemoveSectionEffect | source/simple_config.h:291-305 | exactly the first matching section is erased, and the other sections read as before |
| IniStore.RemoveSectionDistinct | source/simple_config.h:291-305 | DeleteSection keeps names and keys unique |
| IniParse.Step | source/simple_config.h:131-144 | one line never removes a section name; the store changes only by inserting the line's entry under a non-empty current section; the current section changes only to the name of a header line |
| IniParse.ParseFrom | source/simple_config.h:131-144 | the loop never shrinks the store |
| IniParse.ParseFromKeepsNames | source/simple_config.h:131-144 | the section names before the loop are a prefix of the names after it |
| IniParse.Parse | source/simple_config.h:131-144 | whatever ReadFile loads from `getline` lines has unique names and keys, valid section names, no empty section, and well-shaped entries |
| IniParse.ParseFromAppend | source/simple_config.h:131-144 | reading lines `a + b` is reading `a`, then continuing with `b` |
| IniParse.HeaderLineParses | source/simple_config.h:338-354 | the `[name]` line written for a valid name is read back as that name |
| IniParse.HeaderCreatesNoSection | source/simple_config.h:134-138 | a header line only changes the current section |
| IniParse.HeaderOnlyFileIsEmpty | source/simple_config.h:131-144 | a file holding only a header loads no section |
| IniParse.NoHeaderNoSections | source/simple_config.h:140 | without a header line nothing is loaded |
| IniParse.EntriesBeforeHeaderDropped | source/simple_config.h:140 | lines before the first header do not affect the result |
| IniParse.NonHeaderKeepsSection | source/simple_config.h:134-143 | only a header line changes the current section |
| IniParse.BadHeaderIgnored | source/simple_config.h:338-354 | `[1st]` is neither a header nor a key/value line and changes nothing |
| IniParse.BracketedEntryFallsThrough | source/simple_config.h:134-143 | `[a=b]` fails as a header and is stored as key `[a`, value `b]` |
| IniParse.EntryLineReplaces | source/simple_config.h:140-143 | a key/value line under a header inserts the entry into the current section, and a later duplicate wins |
| IniParse.RepeatedHeaderMerges | source/simple_config.h:131-144 | a repeated header adds to the existing section instead of creating a second one |
| IniSerialize.EntriesText | source/simple_config.h:443-451 | the entry text is the entry lines, each ending in a newline |
| IniSerialize.SectionText | source/simple_config.h:441-454 | a section's text is its header line, its entry lines and an empty line, each ending in a newline |
| IniSerialize.ConfigText | source/simple_config.h:434-457 | the text is the header, entry and blank lines of every section, each ending in a newline |
| IniSerialize.EntryLineReads | source/simple_config.h:443-451 | a written entry line read under a header inserts that entry |
| IniSerialize.SectionRead | source/simple_config.h:441-454 | reading a written section appends exactly that section |
| IniSerialize.RoundTrip | source/simple_config.h:434-457 | reading back what GetConfigString writes gives the same store, for every store ReadFile can produce |
| IniSerialize.RereadIsStable | source/simple_config.h:154-170 | after one load, writing and reading again is the identity |
| IniSerialize.SetValueReloadable | source/simple_config.h:172-208 | a SetValue whose value is free of `=#;` and line breaks and already trimmed survives writing and reading again |
| IniSerialize.RemoveSectionReloadable | source/simple_config.h:291-305 | DeleteSection keeps the store readable back unchanged |
| IniSerialize.RemoveKeyReloadable | source/simple_config.h:268-289 | DeleteKey keeps the store readable back unchanged when the section does not become empty |
| IniSerialize.EmptySectionDropped | source/simple_config.h:268-289 | when DeleteKey empties a section of a loaded store, writing and reading again gives the store DeleteSection would have left |
| IniSerialize.CurrentIrrelevant | source/simple_config.h:131-144 | a store's text starts with a header line, so the section current before it does not change how it reads |
| IniConfig.Config.constructor | source/simple_config.h:99 | a new Config has no file, no sections and no write, and meets the class invariant |
| IniConfig.Config.ReadFile | source/simple_config.h:110-148 | a file that cannot be opened returns whether creating it worked and loads nothing; otherwise it returns true, and the loop leaves the store that `ParseFrom` builds from the store as it was, so entries set before the call are kept; when the store was empty before the call, that store is `Parse` of the file's lines; the class invariant is kept |
| IniConfig.Config.InsertKeyValue | source/simple_config.h:308-329 | the new store is `InsertEntry` of the old one, and the class invariant is kept |
| IniConfig.Config.UpdateFile | source/simple_config.h:154-170 | the result is whether the file could be opened, and on success the file holds GetConfigString's text |
| IniConfig.Config.GetConfigString | source/simple_config.h:434-457 | the text built by the loops is `ConfigText(sections)` |
| IniConfig.Config.SectionString | source/simple_config.h:441-454 | the inner loop builds `SectionText` of one section |
| IniConfig.Config.SetValue | source/simple_config.h:172-208 | the result is whether both names are valid, the new store is `IniStore.SetValue` of the old one, and the class invariant is kept |
| IniConfig.Config.SetNumber | source/simple_config.h:219-226 | the numeric overload stores `to_string` of the number |
| IniConfig.Config.GetValue | source/simple_config.h:228-235 | the result is `IniStore.GetValue` of the store |
| IniConfig.Config.GetNumber | source/simple_config.h:244-257 | the result is `GetValueInt` of the store |
| IniConfig.Config.GetSection | source/simple_config.h:259-266 | the result is the section's entries, or empty |
| IniConfig.Config.DeleteKey | source/simple_config.h:268-289 | the search loops erase what `RemoveKey` describes and keep the class invariant; the result is true unless the file must be written and cannot be, and the file is written only then |
| IniConfig.Config.DeleteSection | source/simple_config.h:291-305 | the search loop erases what `RemoveSection` describes and keeps the class invariant; the result is true unless the file must be written and cannot be, and the file is written only then |
| IniManager.Loaded | source/simple_config_manager.h:132-137 | a store loaded from an existing file satisfies the reload invariant |
| IniManager.ConfigManager.constructor | source/simple_config_manager.h:120 | the manager starts with no registered file |
| IniManager.ConfigManager.GetConfigNoLock | source/simple_config_manager.h:122-141 | a cached path returns its store without reloading; a failed load returns null and registers nothing; a successful load registers a fresh store holding the file's contents and no write |
| IniManager.ConfigManager.GetConfig | source/simple_config_manager.h:34-40 | null exactly when the path is neither cached nor loadable, and otherwise the registered store |
| IniManager.ConfigManager.UpdateFile | source/simple_config_manager.h:42-49 | false when the path does not resolve; otherwise the store's UpdateFile result, the store unchanged, and the file's text written on success and left as it was on failure |
| IniManager.ConfigManager.SetValue | source/simple_config_manager.h:51-59 | false when the path does not resolve; otherwise the store's SetValue result and new store, with nothing written; other paths are untouched |
| IniManager.ConfigManager.SetNumber | source/simple_config_manager.h:61-70 | as SetValue, with the number's `to_string` text |
| IniManager.ConfigManager.GetValue | source/simple_config_manager.h:72-80 | the default when the path does not resolve, otherwise the store's GetValue; the store is left as loaded and nothing is written |
| IniManager.ConfigManager.GetNumber | source/simple_config_manager.h:82-90 | the default when the path does not resolve, otherwise the store's integer GetValue; the store is left as loaded and nothing is written |
| IniManager.ConfigManager.GetSection | source/simple_config_manager.h:92-99 | empty when the path does not resolve, otherwise the store's GetSection; the store is left as loaded and nothing is written |
| IniManager.ConfigManager.DeleteKey | source/simple_config_manager.h:101-108 | true when the path does not resolve, otherwise the store's DeleteKey result and new store, with the file written exactly when asked to and the write works |
| IniManager.ConfigManager.DeleteSection | source/simple_config_manager.h:110-117 | true when the path does not resolve, otherwise the store's DeleteSection result and new store, with the file written exactly when asked to and the write works |

## Left out

- Locking: the recursive mutexes and `SafeLock` are omitted, because the model is sequential.
- File I/O with `fstream` is left out:
  - What a read finds is the parameter `content`.
  - Creating a missing file succeeding is `createOk`.
  - Opening for write succeeding is `writeOk`.
  - The model keeps only the last written text.
- The `std::regex` engine is not modelled. Each of the four patterns is a
  hand-written scanner for the language that pattern accepts under
  `regex_match`.
- The floating-point `StringToNumber` overloads (`strtof`, `strtod`) and
  floating-point `to_string` are left out, because floating point is out of
  scope.
- IniNumbers.StrToLong: the value is unbounded, so the following are not
  modelled:
  - `strtol`'s range clamping;
  - the narrowing `static_cast` to `short` or `int`;
  - the unsigned overloads (`strtoul` accepts "-1" and wraps it).
  All integer overloads share this one conversion.
- IniConfig.Config.SetNumber: `std::to_string` is modelled for mathematical
  integers. Fixed-width types and their limits are not modelled.
- The `const char*` overloads of SetValue and GetValue are left out. They only
  convert to `std::string`, and a null default becomes `""`.
- The `assert`s on non-empty paths, on `ReadFile` running once, and on non-null
  pointers become preconditions.
- `GetFile` is left out. It only returns the stored path.
- The `ConfigManager` singleton, `new`/`delete` of `Config`, and the
  destructor are left out, because Dafny manages memory itself.
- `IniManager.ConfigManager` operations: a path's load outcome (`content`,
  `createOk`) is a parameter of each call. It only matters the first time the
  path is used.
- The test program is not modelled.
