# Exomia.Configuration, modelled in Dafny

Exomia.Configuration is an in-memory configuration store. A **source** (`ConfigSourceBase`) holds
named **sections** (`ConfigBase`). Each section maps keys to a value and a comment
(`ValueCommentPair`) and notifies `KeySet` / `KeyRemoved` on every change. Values may refer to
other keys as `${key}` or `${section.key}`, and `GetExpanded` resolves those references
recursively (`ExpandValue`). There are three front ends:

- **INI.** `IniParser` reads lines: `;` info lines, `[name] ;comment` headers and
  `key = value ;comment` key lines. `IniConfigSource.OnSave` writes them back.
- **XML.** `XmlParser` walks the node stream of an `XmlReader`. `XmlConfigSource.OnSave` builds a
  `config` document of `section` and `item` elements.
- **Command line.** `ArgvParser` turns arguments into one section. `key=value;comment` is stored
  under its key, and anything else under the argument's position.

The model has one module per concern:

| module | file | what it models |
|---|---|---|
| `Base` | `base.dfy` | `Option` and `Result`, and the exceptions the library throws |
| `Text` | `text.dfy` | `Trim('\r', '\n', ' ')`, the regex class `\s`, `string.Replace`, `int.ToString()`, ASCII lower-casing |
| `ValueComments` | `value_comment.dfy` | `ValueCommentPair` and its `ToString` |
| `Entries` | `entries.dfy` | the `_vcPairs` dictionary, as an insertion-ordered sequence with unique keys |
| `Sections` | `sections.dfy` | a section as a value (`SectionView`), and its operations as functions |
| `Sources` | `sources.dfy` | a source as a sequence of sections with unique names: `Add`, `Get` and the additive `Merge` |
| `Formatting` | `formatting.dfy` | the `{n}` subset of `string.Format` that `SetExpanded` uses |
| `Placeholders` | `placeholders.dfy` | the pattern `\${(.+?)(?:\.(.+?))?\}` as an explicit leftmost, lazy matcher |
| `Expansion` | `expansion.dfy` | `ExpandValue` / `GetExpanded<string>` with a fuel bound, and their failure and divergence cases |
| `Resolution` | `resolution.dfy` | the theorem that, when the references form no cycle, expansion computes the meaning of a key |
| `ResolutionSamples` | `resolution_samples.dfy` | two instances of that theorem |
| `KeyValueComments` | `kvc.dfy` | the `key = value ;comment` pattern shared by the INI and argv readers, as an explicit matcher |
| `Readers` | `readers.dfy` | the section-opening and key-storing steps shared by the INI and XML readers |
| `Ini` | `ini.dfy` | the INI header matcher, the line loop as a fold, the writer and the save/reload round trip |
| `Xml` | `xml.dfy` | the XML node loop as a fold, the document builder and the save/reload round trip |
| `Argv` | `argv.dfy` | the argument loop and its reference definition |
| `Store` | `store.dfy` | the stateful classes `Config` (a section) and `ConfigSource` (a source) |

The two classes in `Store` update their fields in place. Each method is proved to leave exactly
the state that the value functions of the other modules describe. The properties are proved about
those functions:

- round trips through the INI and XML writers;
- idempotence of `Merge`;
- the argv loop against its reference definition;
- expansion against an order-free definition of what a key means.

## Model

| member | source | states |
|---|---|---|
| ValueComments.QuoteIfNeeded | Exomia.Configuration/IConfig.cs:229 | the value is left as it is exactly when it holds no `;`; otherwise it is wrapped in double quotes |
| ValueComments.CommentSuffix | Exomia.Configuration/IConfig.cs:230 | the suffix is empty exactly when the comment is empty; otherwise it is ` ;` followed by the comment |
| ValueComments.PairToString | Exomia.Configuration/IConfig.cs:227-231 | the text starts with the value, quoted exactly when the value holds `;`, and ends with ` ;comment` when the comment is not empty; its length adds up; a plain value with no comment is returned unchanged |
| Entries.IndexOf | Exomia.Configuration/ConfigBase.cs:128 | the position found holds the key, and no position before it does; None means no position holds the key |
| Entries.Find | Exomia.Configuration/ConfigBase.cs:218 | the pair found is the one stored at the key's position; None exactly when the key is absent |
| Entries.Put | Exomia.Configuration/ConfigBase.cs:135 | after `_vcPairs[key] = pair` the key finds the new pair and every other key finds what it found before; keys stay unique; an existing key keeps its place; a new key is appended |
| Entries.Delete | Exomia.Configuration/ConfigBase.cs:220 | `_vcPairs.Remove(key)` removes the key, keeps every other key's pair and keeps keys unique; an absent key changes nothing; a present key shortens the sequence by one |
| Entries.IndexOfDelete | Exomia.Configuration/ConfigBase.cs:220 | after a removal, every other key is found one place earlier when it came after the removed one, and at the same place otherwise |
| Entries.PutAllFresh | Exomia.Configuration/ConfigBase.cs:135 | storing a key that is not present appends it and keeps keys unique |
| Text.Trim | Exomia.Configuration/Ini/IniParser.cs:103 | the result neither starts nor ends with CR, LF or space, and is no longer than the input |
| Text.TrimIsSlice | Exomia.Configuration/Ini/IniParser.cs:103 | the trimmed text is a slice of the input with only CR, LF and space outside it on either side |
| Text.TrimStart | Exomia.Configuration/Ini/IniParser.cs:103 | the result is a suffix of the input; every character cut off is CR, LF or space, and the result does not start with one |
| Text.TrimEnd | Exomia.Configuration/Ini/IniParser.cs:103 | the result is a prefix of the input; every character cut off is CR, LF or space, and the result does not end with one |
| Text.TrimIdempotent | Exomia.Configuration/Ini/IniParser.cs:103 | trimming twice gives what trimming once gives |
| Text.TrimDropsTrailingBlanks | Exomia.Configuration/Ini/IniParser.cs:103 | a trimmed, non-empty text followed by blanks trims back to itself |
| Text.ReplaceAllChars | Exomia.Configuration/ConfigBase.cs:256 | `string.Replace` writes only characters of the text or of the replacement |
| Text.ReplaceAll | Exomia.Configuration/ConfigBase.cs:256 | `string.Replace` of a pattern by itself leaves the text as it was (the characters it writes are stated by `ReplaceAllChars`) |
| Text.ReplaceAllAbsent | Exomia.Configuration/ConfigBase.cs:256 | text in which the pattern does not occur is returned unchanged |
| Text.NatToString | Exomia.Configuration/Argv/ArgvParser.cs:87 | `i.ToString()` is a non-empty string of decimal digits with no leading zero |
| Text.NatToStringRoundTrip | Exomia.Configuration/Argv/ArgvParser.cs:87 | reading the decimal text of `i` back gives `i` |
| Text.NatToStringInjective | Exomia.Configuration/Argv/ArgvParser.cs:87 | two positions never share their decimal text, so positional keys never collide with each other |
| Text.ToLower | Exomia.Configuration/Xml/XmlParser.cs:102 | the result has the same length; ASCII capitals are lowered and every other character is kept |
| Text.ToLowerOfLower | Exomia.Configuration/Xml/XmlParser.cs:102 | a name without ASCII capitals is its own lower-case form |
| Sections.SetKey | Exomia.Configuration/ConfigBase.cs:132-139 | `Set` stores exactly the new pair under the key, leaves every other key's pair, appends a new key at the end, keeps keys unique, raises exactly one `KeySet` carrying value and comment, and changes nothing else |
| Sections.TrySetKey | Exomia.Configuration/ConfigBase.cs:142-147 | `TrySet` returns true exactly when the key is absent; false leaves the section (and its notifications) unchanged; true behaves as `Set` |
| Sections.GetValue | Exomia.Configuration/ConfigBase.cs:170-175 | `Get<string>` fails with KeyNotFound exactly when the key is absent; otherwise it returns the stored raw value |
| Sections.RemoveKey | Exomia.Configuration/ConfigBase.cs:216-227 | `Remove` fails with KeyNotFound exactly when the key is absent; otherwise it drops only that key, raises one `KeyRemoved` carrying the old pair, and leaves the name, comment, infos and key infos |
| Sections.TryRemoveAsWritten | Exomia.Configuration/ConfigBase.cs:230-233 | the code as written: a present key returns false with nothing changed; an absent key throws KeyNotFound |
| Sections.TryRemoveKey | Exomia.Configuration/IConfig.cs:190-197 | the documented `TryRemove`: true exactly when the key is present, in which case the key is removed as `Remove` does; false changes nothing |
| Sections.TryRemoveDisagreesWithDoc | Exomia.Configuration/ConfigBase.cs:232 | for every present key the documented behaviour removes and returns true, while the code returns false and changes nothing |
| Sections.AddKeyInternal | Exomia.Configuration/Ini/IniConfig.cs:72-79 | the cell is `Set` first; no infos leave the key infos; infos for a key that has none are recorded; infos for a key that already has some throw DuplicateKey after the value was overwritten |
| Sections.SectionHeader | Exomia.Configuration/ConfigBase.cs:236-239 | `ToString` starts with `[name]` and appends ` ;comment` exactly when the comment is not empty |
| Sources.SectionIndex | Exomia.Configuration/ConfigSourceBase.cs:67 | the position found holds a section of that name; None means no section has it |
| Sources.LookupSection | Exomia.Configuration/ConfigSourceBase.cs:65-74 | `Get` / `TryGet`: fails with KeyNotFound exactly when no section has the name; otherwise returns a section of that name |
| Sources.LookupSectionFinds | Exomia.Configuration/ConfigSourceBase.cs:65-68 | with unique names, the lookup returns the one section that carries the name |
| Sources.AddSection | Exomia.Configuration/ConfigSourceBase.cs:57-62 | a taken name throws DuplicateKey and changes nothing; otherwise an empty section with the name and comment is appended, every existing section stays in place, names stay unique and the new section can be looked up |
| Sources.SetAllBlank | Exomia.Configuration/ConfigSourceBase.cs:85-88 | copying keys leaves the section's name, comment, infos and key infos alone |
| Sources.SetAllBlankFresh | Exomia.Configuration/ConfigSourceBase.cs:83-88 | a copied section has the name and comment, every raw value in order with an empty comment, one `KeySet` per key, and no infos or key infos |
| Sources.CopySectionContents | Exomia.Configuration/ConfigSourceBase.cs:83-88 | the section `Merge` creates for another section is that section's cells with comments cleared |
| Sources.MergeOne | Exomia.Configuration/ConfigSourceBase.cs:79-89 | a section whose name is taken is skipped; otherwise its copy is appended |
| Sources.MergeViews | Exomia.Configuration/ConfigSourceBase.cs:77-90 | `Merge`: each section of the other source adds at most one section (what is kept and added is stated by `MergeKeepsExisting`, `MergeNames` and `MergeUnique`) |
| Sources.MergeKeepsExisting | Exomia.Configuration/ConfigSourceBase.cs:81 | existing sections are left exactly as they were, in place; new sections only come after them |
| Sources.MergeNames | Exomia.Configuration/ConfigSourceBase.cs:79-83 | after a merge, a name is registered exactly when it was before or the other source has it |
| Sources.MergeUnique | Exomia.Configuration/ConfigSourceBase.cs:81-83 | merging keeps section names unique, whatever the other source holds |
| Sources.MergeAllPresent | Exomia.Configuration/ConfigSourceBase.cs:81 | a source all of whose names are taken merges as a no-op |
| Sources.MergeSelf | Exomia.Configuration/ConfigSourceBase.cs:77-90 | merging a source into itself changes nothing |
| Sources.MergeIdempotent | Exomia.Configuration/ConfigSourceBase.cs:77-90 | merging the same source twice gives what merging it once gave |
| Formatting.DigitRun | Exomia.Configuration/ConfigBase.cs:156 | the digits of a hole index run up to the first non-digit |
| Formatting.Format | Exomia.Configuration/ConfigBase.cs:156 | `string.Format` succeeds only on a well-formed format whose holes all number a given argument, and then renders it; in the model every other case is a FormatException |
| Formatting.ParseFormat | Exomia.Configuration/ConfigBase.cs:156 | reading a format fails only with FormatException (what it reads is stated by `ParseUnparse`) |
| Formatting.Render | Exomia.Configuration/ConfigBase.cs:156 | every character written is a literal of the format or comes from one of the arguments |
| Formatting.ParseUnparse | Exomia.Configuration/ConfigBase.cs:156 | reading a written format gives back its items: holes and literal characters, with doubled braces |
| Formatting.FormatPlainText | Exomia.Configuration/ConfigBase.cs:156 | a format without braces is returned unchanged |
| Placeholders.CloseBrace | Exomia.Configuration/ConfigBase.cs:107 | the lazy group 2 ends at the first `}` at or after the position where its search starts, with no line feed on the way from the character before that position; when it finds none, every later `}` has a line feed before it |
| Placeholders.MatchedText | Exomia.Configuration/ConfigBase.cs:253-260 | the text the engine replaces (group 0) is exactly `${key}` or `${section.key}` for the groups it reads, and lies inside the searched text at or after the search start |
| Placeholders.NoDollarNoPlaceholder | Exomia.Configuration/ConfigBase.cs:251 | text without `$` has no match, so the loop stops at once |
| Placeholders.LeadingBareReference | Exomia.Configuration/ConfigBase.cs:107 | a text starting with `${k}` matches it first, as a reference to key `k` of the current section |
| Placeholders.LeadingCrossReference | Exomia.Configuration/ConfigBase.cs:107 | a text starting with `${s.k}` matches it first, as a reference to key `k` of section `s` |
| Expansion.ExpandMonotone | Exomia.Configuration/ConfigBase.cs:248-264 | more fuel never changes a result that was reached, so the fuel bound only cuts off runs that never return |
| Expansion.ExpandKeyMonotone | Exomia.Configuration/ConfigBase.cs:178-183 | the same for `GetExpanded` |
| Expansion.LeftmostMissingFails | Exomia.Configuration/ConfigBase.cs:255-260 | when the leftmost placeholder names a missing section or a missing key, expansion throws KeyNotFound, whatever follows it |
| Expansion.LeftmostCycleDiverges | Exomia.Configuration/ConfigBase.cs:248-264 | keys whose leftmost placeholders form a cycle never finish expanding, for any fuel |
| Expansion.DivergingReference | Exomia.Configuration/ConfigBase.cs:260 | a key whose leftmost placeholder names a key that does not finish does not finish either |
| Expansion.SelfReferenceDiverges | Exomia.Configuration/ConfigBase.cs:182 | a key whose value starts with a reference to itself never finishes expanding |
| Expansion.Expand | Exomia.Configuration/ConfigBase.cs:248-264 | `ExpandValue`: a finished expansion holds no match of the placeholder pattern (what it expands to is stated by `ExpandsAsResolved`, `LeftmostMissingFails` and `LeftmostCycleDiverges`) |
| Expansion.ExpandKey | Exomia.Configuration/ConfigBase.cs:178-183 | `GetExpanded<string>`: a key missing from the section is KeyNotFound, and a finished expansion holds no placeholder |
| Expansion.ExpandBaseCases | Exomia.Configuration/ConfigBase.cs:182 | text without a placeholder is returned unchanged, and a missing key throws KeyNotFound |
| Resolution.FirstRef | Exomia.Configuration/ConfigBase.cs:251 | the leftmost reference of a template, when there is one, is a reference |
| Resolution.ReferenceInjective | Exomia.Configuration/ConfigBase.cs:107 | two well-formed references with the same text are the same reference |
| Resolution.FindRendered | Exomia.Configuration/ConfigBase.cs:251 | on a rendered template, `Regex.Match` finds the leftmost reference, with its section and key, or nothing when there is none |
| Resolution.ReplaceRendered | Exomia.Configuration/ConfigBase.cs:256 | replacing the text of a reference in a rendered template renders the template in which every copy of that reference is a literal |
| Resolution.OtherReferenceKept | Exomia.Configuration/ConfigBase.cs:256 | a reference spelt differently from the pattern is copied unchanged by `Replace` |
| Resolution.Resolve | Exomia.Configuration/ConfigBase.cs:178-183 | the meaning of a key, its template with every reference replaced by the meaning of the key it names, holds no `$` |
| Resolution.ResolveSegments | Exomia.Configuration/ConfigBase.cs:248-264 | the meaning of a template holds no `$` |
| Resolution.NoRefsResolve | Exomia.Configuration/ConfigBase.cs:251 | a template without references means its own text |
| Resolution.SubstKeeps | Exomia.Configuration/ConfigBase.cs:256 | substituting a reference by a `$`-free text keeps the template well-formed, with every reference still below the bound |
| Resolution.SubstCount | Exomia.Configuration/ConfigBase.cs:256 | substitution never adds references, and substituting the leftmost one removes at least it |
| Resolution.ResolveSubst | Exomia.Configuration/ConfigBase.cs:256 | substituting the copies of a reference by the meaning of its key does not change the template's meaning |
| Resolution.BudgetIs | Exomia.Configuration/ConfigBase.cs:248-264 | the fuel budget for rank `r` with at most `m` references per value is `r * (m + 1)` |
| Resolution.TemplateAt | Exomia.Configuration/ConfigBase.cs:182 | in an acyclic source, the value of every existing key is the text of its well-formed template |
| Resolution.FirstRefBelow | Exomia.Configuration/ConfigBase.cs:253-260 | in an acyclic source, the leftmost reference names an existing key of lower rank |
| Resolution.TargetIndex | Exomia.Configuration/ConfigBase.cs:255 | a reference resolves in the current section for `${k}`, or in the section `_configSource.Get(s)` returns for `${s.k}`, and that section holds the key |
| Resolution.SubstRound | Exomia.Configuration/ConfigBase.cs:256 | one round turns the rendered template into the rendered substituted template, which has fewer references and the same meaning |
| Resolution.RoundStep | Exomia.Configuration/ConfigBase.cs:253-261 | one round of the engine on a rendered template: the nested `GetExpanded` gives `v`, and the loop continues on the substituted template |
| Resolution.RoundResolves | Exomia.Configuration/ConfigBase.cs:251-262 | a round followed by the remaining rounds yields the meaning of the template |
| Resolution.RoundContinues | Exomia.Configuration/ConfigBase.cs:251-262 | after a round, the remaining rounds yield the meaning of the template, which is also the meaning of the original template |
| Resolution.NoRefsExpand | Exomia.Configuration/ConfigBase.cs:251 | a rendered template without references is its own expansion |
| Resolution.ExpandsSegmentsAsResolved | Exomia.Configuration/ConfigBase.cs:248-264 | `ExpandValue` on a rendered acyclic template returns its meaning once the fuel covers its rounds and nested calls |
| Resolution.ExpandsAsResolved | Exomia.Configuration/ConfigBase.cs:178-183 | in a source whose references form no cycle, `GetExpanded<string>(key)` returns the meaning of the key, which holds no `$` |
| Resolution.ExpandsWithinBudget | Exomia.Configuration/ConfigBase.cs:178-183 | the same, with the fuel bound written out as (rank + 1) * (m + 1) |
| ResolutionSamples.SampleAcyclic | Exomia.Configuration/ConfigBase.cs:107 | the sample source (`S1.k = A`; `S2.base = x`, `S2.full = ${base}-y`, `S2.ref = ${S1.k}`) has no reference cycle |
| ResolutionSamples.FullMeaning | Exomia.Configuration/ConfigBase.cs:260 | the meaning of `S2.full` is `x-y` |
| ResolutionSamples.CrossMeaning | Exomia.Configuration/ConfigBase.cs:256 | the meaning of `S2.ref` is `A` |
| ResolutionSamples.SameSectionSample | Exomia.Configuration/ConfigBase.cs:258-261 | `GetExpanded("full")` on `S2` returns `x-y` |
| ResolutionSamples.CrossSectionSample | Exomia.Configuration/ConfigBase.cs:253-257 | `GetExpanded("ref")` on `S2` returns `A`, read from section `S1` |
| KeyValueComments.SkipSpaces | Exomia.Configuration/Ini/IniParser.cs:44 | `\s*` stops at the first character that is not in `\s` |
| KeyValueComments.LastQuote | Exomia.Configuration/Ini/IniParser.cs:44 | the greedy `(.+)["\|']` closes at the last quote character of the text |
| KeyValueComments.ValueEnd | Exomia.Configuration/Ini/IniParser.cs:44 | the greedy `[^;\n]+` stops at the first `;` or line feed |
| KeyValueComments.GetKeyValueComment | Exomia.Configuration/Ini/IniParser.cs:184-219 | a successful read gives a key, value and comment, each trimmed of CR, LF and space |
| KeyValueComments.NoEqualsNoMatch | Exomia.Configuration/Ini/IniParser.cs:191-195 | a line without `=` is never a key line |
| KeyValueComments.KeyLine | Exomia.Configuration/Ini/IniConfigSource.cs:88-89 | a written key line starts with `key = ` |
| KeyValueComments.KeyLineRoundTrip | Exomia.Configuration/Ini/IniParser.cs:197-215 | reading back a written key line gives the key, the value (quoted or not) and the comment |
| KeyValueComments.QuotedCell | Exomia.Configuration/Ini/IniParser.cs:198-205 | a value holding `;` is written quoted and read back to its last quote, so the `;` inside survives and the comment after it is read |
| KeyValueComments.PlainCell | Exomia.Configuration/Ini/IniParser.cs:208-215 | an unquoted value is read back up to the ` ;` of its comment, or to the end |
| KeyValueComments.EmptyValueNoMatch | Exomia.Configuration/Ini/IniParser.cs:208-218 | a key line with an empty value, `key =` or `key = ;c`, is not a key line |
| KeyValueComments.ArgumentRoundTrip | Exomia.Configuration/Argv/ArgvParser.cs:115-134 | an argument `key=value;comment` is read as that key, value and comment |
| KeyValueComments.ArgumentExample | Exomia.Configuration/Argv/ArgvParser.cs:109-134 | `--name=test;run` reads as key `--name`, value `test`, comment `run` |
| Readers.ReaderStart | Exomia.Configuration/Ini/IniParser.cs:99-100 | a merge starts with no current section and no pending infos |
| Readers.OpenSection | Exomia.Configuration/Ini/IniParser.cs:115-117 | opening a section keeps the reader state valid |
| Readers.OpenSectionFresh | Exomia.Configuration/Ini/IniParser.cs:115-117 | under a fresh name the section is appended, made current and given the pending infos, which are cleared |
| Readers.OpenSectionTaken | Exomia.Configuration/Ini/IniParser.cs:115 | under a taken name the reader stops with DuplicateKey and nothing changes |
| Readers.StoreKeyFresh | Exomia.Configuration/Ini/IniParser.cs:125-126 | a key without infos is stored in the current section with the pending infos as its key infos, and the pending infos are cleared |
| Readers.StoreKeyTaken | Exomia.Configuration/Ini/IniConfig.cs:74-77 | a key that already has infos stops the reader with DuplicateKey after its value was stored |
| Readers.OpenSectionUnique | Exomia.Configuration/ConfigSourceBase.cs:60 | opening a section never registers a name twice |
| Readers.StoreKeyUnique | Exomia.Configuration/Ini/IniParser.cs:125 | storing a key renames no section |
| Readers.KeyInfosReadIs | Exomia.Configuration/Ini/IniParser.cs:125-126 | after reading back, exactly the keys read carry key infos, each the ones written before it |
| Readers.EntryStored | Exomia.Configuration/Ini/IniParser.cs:125-126 | storing the next cell with its infos turns the section read so far into the next one |
| Ini.LineEnd | Exomia.Configuration/Ini/IniParser.cs:46 | `.` stops at the first line feed |
| Ini.LastClose | Exomia.Configuration/Ini/IniParser.cs:46 | the greedy `(.+)\]` closes at the last `]` |
| Ini.GetSection | Exomia.Configuration/Ini/IniParser.cs:161-171 | fails with "the section is not valid" exactly when the header pattern does not match; otherwise returns the trimmed name and comment |
| Ini.UnclosedHeaderInvalid | Exomia.Configuration/Ini/IniParser.cs:163-167 | a `[` line with no `]` after its first name character, such as `[]` or `[abc`, is rejected |
| Ini.HeaderRoundTrip | Exomia.Configuration/Ini/IniParser.cs:161-171 | reading back a written header gives the section name and comment |
| Ini.IniStep | Exomia.Configuration/Ini/IniParser.cs:101-128 | one pass of the line loop keeps the reader state valid |
| Ini.IniRun | Exomia.Configuration/Ini/IniParser.cs:101-128 | the whole loop keeps the reader state valid |
| Ini.IniRunAppend | Exomia.Configuration/Ini/IniParser.cs:101-128 | reading `a + b` reads `a`, then, unless it threw, reads `b` from where `a` left off |
| Ini.IniRunUnique | Exomia.Configuration/Ini/IniParser.cs:115 | reading a whole file never registers a section name twice |
| Ini.IniMerge | Exomia.Configuration/Ini/IniParser.cs:90-130 | `Merge(stream, source)`: a source whose section names are distinct keeps them distinct, whether or not the read throws |
| Ini.InfoLinesCollected | Exomia.Configuration/Ini/IniParser.cs:105-109 | info lines are collected in order and change nothing else |
| Ini.BlankLineSkipped | Exomia.Configuration/Ini/IniParser.cs:104 | blank lines are skipped |
| Ini.HeaderAdds | Exomia.Configuration/Ini/IniParser.cs:111-118 | a written header under a fresh name adds the section, which takes the pending infos |
| Ini.DuplicateHeaderThrows | Exomia.Configuration/Ini/IniParser.cs:115 | a header naming a section the source already has stops the reader with DuplicateKey |
| Ini.KeyLineAdds | Exomia.Configuration/Ini/IniParser.cs:122-127 | a written key line inside a section stores its cell, raises `KeySet`, records the pending infos as the key's infos and clears them |
| Ini.DuplicateKeyThrows | Exomia.Configuration/Ini/IniConfig.cs:74-77 | a key line whose key already has infos stops the reader with DuplicateKey |
| Ini.KeyLineBeforeSection | Exomia.Configuration/Ini/IniParser.cs:122 | key lines before the first header are ignored and keep the pending infos |
| Ini.EmptyValueIgnored | Exomia.Configuration/Ini/IniParser.cs:208-218 | a key written with an empty value is ignored on reading, and its infos wait for the next key |
| Ini.ReadBackAll | Exomia.Configuration/Ini/IniConfigSource.cs:66-92 | the read-back source has one section per written section, in order |
| Ini.SectionReadBack | Exomia.Configuration/Ini/IniConfigSource.cs:66-92 | the lines of one written section, under a fresh name, are read back as that section |
| Ini.IniReadsWhatItWrites | Exomia.Configuration/Ini/IniConfigSource.cs:66-92 | reading back the writer's lines into an empty source throws nothing and rebuilds every section in order: names, comments, section infos, keys, values, comments and key infos |
| Ini.ReadBackStable | Exomia.Configuration/Ini/IniConfigSource.cs:66-92 | a second save and reload gives the cells, infos and key infos of the first |
| Xml.Attribute | Exomia.Configuration/Xml/XmlParser.cs:110-114 | `MoveToAttribute(name)` finds a value exactly when an attribute has that name |
| Xml.SectionFields | Exomia.Configuration/Xml/XmlParser.cs:110-120 | reading a `section` fails with a missing-attribute error for `name` exactly when it has no `name` attribute |
| Xml.ItemFields | Exomia.Configuration/Xml/XmlParser.cs:131-147 | reading an `item` fails exactly when `key` or `value` is missing: for the key when the key is missing, otherwise for the value |
| Xml.XmlStep | Exomia.Configuration/Xml/XmlParser.cs:96-160 | one pass of the node loop keeps the reader state valid |
| Xml.XmlRun | Exomia.Configuration/Xml/XmlParser.cs:96-160 | the whole loop keeps the reader state valid |
| Xml.XmlRunAppend | Exomia.Configuration/Xml/XmlParser.cs:96-160 | reading `a + b` reads `a`, then, unless it threw, reads `b` from where `a` left off |
| Xml.XmlRunUnique | Exomia.Configuration/Xml/XmlParser.cs:121 | reading a whole document never registers a section name twice |
| Xml.XmlMerge | Exomia.Configuration/Xml/XmlParser.cs:79-162 | `Merge(stream, source)`: a source whose section names are distinct keeps them distinct, whether or not the read throws |
| Xml.SectionWithoutName | Exomia.Configuration/Xml/XmlParser.cs:110-113 | a `section` with attributes but no `name` stops the reader and changes nothing |
| Xml.ItemWithoutValue | Exomia.Configuration/Xml/XmlParser.cs:137-140 | an `item` with a `key` but no `value` stops the reader and changes nothing |
| Xml.ItemOutsideSection | Exomia.Configuration/Xml/XmlParser.cs:127 | items before the first section are ignored |
| Xml.BareSectionSkipped | Exomia.Configuration/Xml/XmlParser.cs:108 | a `section` without attributes is skipped, and the section read last stays current |
| Xml.CommentsCollected | Exomia.Configuration/Xml/XmlParser.cs:156-158 | comments are collected in order as pending infos and change nothing else |
| Xml.SectionAttrs | Exomia.Configuration/Xml/XmlConfigSource.cs:64-80 | the attributes of a written section are never empty and read back as its name and comment |
| Xml.ItemAttrs | Exomia.Configuration/Xml/XmlConfigSource.cs:92-112 | the attributes of a written item are never empty and read back as its key, value and comment |
| Xml.InfoComments | Exomia.Configuration/Xml/XmlConfigSource.cs:146-153 | no infos write no comment; otherwise one comment per info line, in order |
| Xml.ItemsStored | Exomia.Configuration/Xml/XmlParser.cs:126-151 | the items of a written section, read one by one, rebuild its cells |
| Xml.SectionTreesReadBack | Exomia.Configuration/Xml/XmlConfigSource.cs:144-161 | a written section, comments first, is read back under a fresh name |
| Xml.XmlReadBackAll | Exomia.Configuration/Xml/XmlConfigSource.cs:139-161 | the read-back source has one section per written section, in order |
| Xml.XmlReadsWhatItWrites | Exomia.Configuration/Xml/XmlConfigSource.cs:139-161 | reading back the saved document into an empty source throws nothing and rebuilds every section in order: names, comments, section infos, keys, values and comments; key infos come back empty |
| Argv.ArgumentEntry | Exomia.Configuration/Argv/ArgvParser.cs:78-88 | an argument yields nothing exactly when it is blank once trimmed |
| Argv.ArgvStep | Exomia.Configuration/Argv/ArgvParser.cs:83 | a repeated key throws DuplicateKey and keeps the cells stored so far |
| Argv.ArgumentCells | Exomia.Configuration/Argv/ArgvParser.cs:76 | one cell per argument in the range (each cell is stated by `ArgumentCellsAre`) |
| Argv.ArgumentCellsAre | Exomia.Configuration/Argv/ArgvParser.cs:76-88 | the cell of argument `i` is what `argv[i]` becomes at its absolute index `i` |
| Argv.ArgvFold | Exomia.Configuration/Argv/ArgvParser.cs:76-89 | the loop throws nothing but DuplicateKey, and keeps the cells stored before it, only adding to them |
| Argv.ArgvFoldIsPresent | Exomia.Configuration/Argv/ArgvParser.cs:76-89 | the loop succeeds exactly when the non-blank arguments carry distinct keys, and then stores every one of them in order; otherwise it throws DuplicateKey |
| Argv.FoldStops | Exomia.Configuration/Argv/ArgvParser.cs:83 | once the loop has thrown, later arguments are not read |
| Argv.ArgvMerge | Exomia.Configuration/Argv/ArgvParser.cs:68-90 | a successful merge appends exactly one section and leaves the others in place |
| Argv.ArgvParse | Exomia.Configuration/Argv/ArgvParser.cs:52-57 | `Parse` into a new source: when it succeeds, the source holds exactly one section, under the given name |
| Argv.ArgvMergeTaken | Exomia.Configuration/Argv/ArgvParser.cs:74 | a section name already in the source throws and leaves the source as it was |
| Argv.ArgvMergeNegative | Exomia.Configuration/Argv/ArgvParser.cs:76-78 | a negative start index throws IndexOutOfRange after the empty section was added |
| Argv.ArgvMergeStores | Exomia.Configuration/Argv/ArgvParser.cs:74-89 | under a fresh name the merge succeeds exactly when the arguments carry distinct keys; the new section then holds every non-blank argument in order, with no notification and no infos |
| Argv.ArgvMergeUnique | Exomia.Configuration/Argv/ArgvParser.cs:74 | a merge never registers a section name twice |
| Argv.PositionalArgument | Exomia.Configuration/Argv/ArgvParser.cs:85-88 | an argument without `=` is stored trimmed under its absolute position, with no comment |
| Argv.KeyedArgument | Exomia.Configuration/Argv/ArgvParser.cs:81-84 | an argument `key=value;comment` is stored under its key with its value and comment |
| Argv.ArgvExample | Exomia.Configuration/Argv/ArgvParser.cs:76-89 | `["--name=test;run", "bare-token"]` from 0 stores `--name` with value `test` and comment `run`, then `1` with value `bare-token` and no comment |
| Argv.MergeArguments | Exomia.Configuration/Argv/ArgvParser.cs:76-89 | the loop from the start index computes the fold of the argument cells |
| Argv.FoldCells | Exomia.Configuration/Argv/ArgvParser.cs:76-89 | applying the loop body to each cell in order computes the fold, stopping at the first repeated key |
| Store.ReferenceArgs | Exomia.Configuration/ConfigBase.cs:156 | one argument `${k}` per key, in order |
| Store.CommentOrEmpty | Exomia.Configuration/ConfigBase.cs:152-155 | a null comment becomes "" and any other is kept |
| Store.ExpandedFormatStoresReferences | Exomia.Configuration/ConfigBase.cs:150-157 | `SetExpanded` stores the format with hole `{i}` filled by the literal, unexpanded text `${keys[i]}` |
| Store.LoneHoleStoresReference | Exomia.Configuration/ConfigBase.cs:156 | the format `{0}` with key `k` stores exactly `${k}` |
| Store.ExpandValue | Exomia.Configuration/ConfigBase.cs:248-264 | the `while` loop computes the expansion function |
| Store.GetExpandedIn | Exomia.Configuration/ConfigBase.cs:178-183 | `GetExpanded<string>` computes the key's expansion, or KeyNotFound |
| Store.Config.constructor | Exomia.Configuration/Ini/IniConfig.cs:59-63 | a new section has the name and comment, no keys, no notifications, no infos and no key infos |
| Store.Config.Contains | Exomia.Configuration/ConfigBase.cs:126-129 | true exactly when the key is stored |
| Store.Config.Set | Exomia.Configuration/ConfigBase.cs:132-139 | the new state is `SetKey` of the old one, and keys stay unique |
| Store.Config.TrySet | Exomia.Configuration/ConfigBase.cs:142-147 | the result and the new state are those of `TrySetKey`, and keys stay unique |
| Store.Config.SetExpanded | Exomia.Configuration/ConfigBase.cs:150-157 | a malformed format throws FormatException with nothing changed; otherwise the formatted text is `Set` with a null comment read as "" |
| Store.Config.TrySetExpanded | Exomia.Configuration/ConfigBase.cs:160-167 | the same for `TrySet` |
| Store.Config.Get | Exomia.Configuration/ConfigBase.cs:170-175 | KeyNotFound exactly when the key is absent; otherwise the stored raw value |
| Store.Config.TryGet | Exomia.Configuration/ConfigBase.cs:186-198 | false with "" exactly when the key is absent; otherwise true with the raw value |
| Store.Config.GetExpanded | Exomia.Configuration/ConfigBase.cs:178-183 | the result is the key's expansion in this section, against the sections of its source |
| Store.Config.TryGetExpanded | Exomia.Configuration/ConfigBase.cs:201-213 | false for a missing key or an unresolved reference; true with the expanded text when the expansion finishes; a run that would not finish is reported as diverging |
| Store.Config.Remove | Exomia.Configuration/ConfigBase.cs:216-227 | a missing key throws with nothing changed; otherwise the new state is `RemoveKey` of the old one, and the call returns true |
| Store.Config.TryRemove | Exomia.Configuration/ConfigBase.cs:230-233 | the result and new state are those of the code as written (`TryRemoveAsWritten`) |
| Store.Config.FillArguments | Exomia.Configuration/Argv/ArgvParser.cs:76-89 | the section's cells become the fold of the arguments, with no notification |
| Store.Config.CopyKeys | Exomia.Configuration/ConfigSourceBase.cs:85-88 | the inner loop of `Merge` leaves the state `SetAllBlank` describes |
| Store.Config.AddKeyInternal | Exomia.Configuration/Xml/XmlConfig.cs:85-92 | the new state and the exception are those of `Sections.AddKeyInternal` |
| Store.ViewsOf | Exomia.Configuration/ConfigSourceBase.cs:50-53 | the sections as values, one per section object, in order |
| Store.ReloadOutcome | Exomia.Configuration/Argv/ArgvConfigSource.cs:27-30 | the argv source always throws InvalidOperation with nothing changed; the others reject an empty file name before anything changes |
| Store.SaveOutcome | Exomia.Configuration/Argv/ArgvConfigSource.cs:33-36 | the argv source always throws InvalidOperation; the others reject an empty file name |
| Store.IniSaveReload | Exomia.Configuration/Ini/IniConfigSource.cs:45-53 | reloading an INI source from the lines it saved gives back what the writer keeps |
| Store.XmlSaveReload | Exomia.Configuration/Xml/XmlConfigSource.cs:121-129 | reloading an XML source from the document it saved gives back every section, without key infos |
| Store.ConfigSource.constructor | Exomia.Configuration/ConfigSourceBase.cs:42-45 | a new source has no sections, an empty file name and no notifications |
| Store.ConfigSource.Add | Exomia.Configuration/ConfigSourceBase.cs:57-62 | a taken name throws with the sections unchanged; otherwise the new state is `AddSection` of the old one, with a fresh section object |
| Store.ConfigSource.Get | Exomia.Configuration/ConfigSourceBase.cs:65-68 | KeyNotFound when no section has the name; otherwise a held section whose state is the one `LookupSection` finds |
| Store.ConfigSource.TryGet | Exomia.Configuration/ConfigSourceBase.cs:71-74 | false with null exactly when no section has the name; otherwise true with that section |
| Store.ConfigSource.Merge | Exomia.Configuration/ConfigSourceBase.cs:77-90 | the new sections are `MergeViews` of the old sections and the other source's, and names stay unique |
| Store.ConfigSource.MergeIni | Exomia.Configuration/Ini/IniParser.cs:90-130 | the new sections and the exception are those of `IniMerge` on the lines |
| Store.ConfigSource.MergeXml | Exomia.Configuration/Xml/XmlParser.cs:79-162 | the new sections and the exception are those of `XmlMerge` on the nodes |
| Store.ConfigSource.MergeArgv | Exomia.Configuration/Argv/ArgvParser.cs:68-90 | the new sections and the exception are those of `ArgvMerge` |
| Store.ConfigSource.WriteIni | Exomia.Configuration/Ini/IniConfigSource.cs:66-92 | the lines written are `IniLines` of the sections |
| Store.ConfigSource.WriteXml | Exomia.Configuration/Xml/XmlConfigSource.cs:144-162 | the children of the root are `RootChildren` of the sections |
| Store.ConfigSource.OnReload | Exomia.Configuration/Ini/IniConfigSource.cs:45-53 | the new sections and the exception are those of `ReloadOutcome` |
| Store.ConfigSource.Reload | Exomia.Configuration/ConfigSourceBase.cs:93-97 | the hook runs, and `Reloaded` is notified exactly once when it did not throw, and never when it did |
| Store.ConfigSource.OnSave | Exomia.Configuration/Xml/XmlConfigSource.cs:132-179 | what is written is `SaveOutcome` of the sections |
| Store.ConfigSource.Save | Exomia.Configuration/ConfigSourceBase.cs:100-104 | the hook runs, the sections are unchanged, and `Saved` is notified exactly once when it did not throw |
| Store.ParseIni | Exomia.Configuration/Ini/IniParser.cs:141-149 | a new INI source with the file name, whose sections are `IniMerge` of the lines into an empty source |
| Store.ParseXml | Exomia.Configuration/Xml/XmlParser.cs:173-181 | a new XML source with the file name, whose sections are `XmlMerge` of the nodes into an empty source |
| Store.ParseArgv | Exomia.Configuration/Argv/ArgvParser.cs:52-57 | a new argv source whose sections are `ArgvParse` of the arguments |

## Left out

- File and stream I/O is not modelled: `FileStream`, `StreamReader`/`StreamWriter` and `XmlReader`/`XmlWriter`/`XmlDocument`.
  - An INI file is its sequence of lines. `WriteLine` followed by `ReadLine` is taken as the identity on lines without CR or LF.
  - An XML file is the node stream a reader reports. The writer's indentation, and the whitespace nodes it produces, are left out.
  - The `stream.Length <= 0` early return is the same as an empty input.
- The XML writer is assumed to write the tree exactly as built. `XmlWriter` rejects a comment with `--` or a trailing `-` and characters XML forbids, and it re-encodes newlines. `Xml.XmlWritable` excludes such text instead of modelling the writer's exceptions and rewriting.
- `Text.ToLower`: element names are lowered ASCII-only.
  - XmlParser.cs:102 uses the culture-sensitive `string.ToLower()`.
  - Under the .NET culture rules, non-ASCII capitals such as U+0130 are lowered too, so `İTEM` matches in .NET but not in the model.
  - Under a Turkish culture, `ITEM` lowers to `ıtem` in .NET and does not match. The model lowers it to `item`.
- `Store.Config.TryGetExpanded`: in .NET a cyclic reference ends in a StackOverflowException, which the `catch` cannot intercept, so the call never returns. The model reports that case through `diverges`, and its `found` and `value` then correspond to nothing the program produces.
- Expansion draws on a `fuel` counter where the source has unbounded recursion and an unbounded loop. `OutOfFuel` stands for a run that does not come back. Termination is proved only for acyclic sources (`Resolution.ExpandsWithinBudget`).
- `Resolution.ExpandsAsResolved` covers sources whose values are written as well-formed templates:
  - `$` appears only at the start of a reference;
  - names hold no `}` or line feed;
  - bare names hold no `.`.
  Values with stray `$`, or with nested or malformed placeholders, are covered only by the general `Expansion` lemmas: the failure cases, divergence and monotonicity.
- Notifications (`KeySet`, `KeyRemoved`, `Reloaded`, `Saved`) are an appended log. Subscribers, the `OnKeySet`/`OnKeyRemove` hooks and re-entrancy are left out.
- .NET `Dictionary` enumeration order is not guaranteed. The model takes insertion order, with removal closing the gap, as a modelling choice.
- Typed access is not modelled: `Convert.ChangeType`, `IConvertible`, `CultureInfo` and the conversions of non-string types. Only the `string` case of `Get`/`TryGet`/`GetExpanded`/`TryGetExpanded` is modelled.
  - The `return default` branch of `Get<T>` for non-primitive types (ConfigBase.cs:173) is left out.
  - `TryGet`'s null out-value on failure is modelled as "".
- `string.Format` is modelled only for `{n}` holes and doubled braces. Spaces after the index, alignment and format specifiers are left out: .NET accepts `{0 }`, `{0,5}` and `{0:x}`, and the model rejects them.
- The three .NET regular expressions are written as explicit matchers that follow the engine's leftmost, backtracking choices. The regex engine itself is not modelled.
  - `\s` is the .NET class: \t \n \v \f \r, the space, U+0085 and the Unicode separators (Z).
- The `null` checks on `stream`, `source` and `argv`, and the resulting ArgumentNullException, are left out. Dafny values are never null.
- `ArgvParser.Merge` stores each token with `Dictionary.Add`, so a repeated key throws ArgumentException. The model reports this as `DuplicateKey`, the same exception kind as `_configs.Add`. Its `Outcome` keeps the cells stored before the throw.
- `GetConfigs()` is modelled by the order of the `configs` field (`Store.ViewsOf`) and has no method of its own.
- IConfigSource.cs (an interface) and Argv/ArgvConfig.cs (a subclass with no behaviour) are not part of this model.
- `Store.Config` stands for `ConfigBase`, `IniConfig`, `XmlConfig` and `ArgvConfig` alike. The argv section never uses `Infos` or `KeyInfos`.
- Each section's back-reference to its source is not a field. `Store.Config.GetExpanded` takes the source's sections as a parameter instead.

## Findings

| source | as written | input that shows it | evidently intended | confidence | as-written member | corrected member |
|---|---|---|---|---|---|---|
| Exomia.Configuration/ConfigBase.cs:232 | `TryRemove` returns `!ContainsKey(key) && Remove(key)`. A present key short-circuits to false and is not removed. An absent key reaches `Remove`, whose `_vcPairs[key]` (line 218) throws KeyNotFoundException. | any key that is present in the section | the documented behaviour (IConfig.cs:190-197): remove a present key and return true; return false for an absent key | not executed | Sections.TryRemoveAsWritten | Sections.TryRemoveKey |
