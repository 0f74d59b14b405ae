# deduplicateRefs in Dafny

A model of `deduplicateRefs.js`, the wikitext reference de-duplicator. The source finds
`<ref ...>content</ref>` tags whose contents are the same once normalized, gives each such
group one name, keeps the content in the group's first tag and turns the others into short
`<ref name="..." />` tags. It also repoints existing short refs whose name was replaced.

The model has ten modules. Eight follow the parts of the source, and two hold the proof that
pass 2 leaves the full refs of pass 3 as pass 1 saw them:

- `Wrappers`: `Option` and `Result`.
- `Text`: the JavaScript string operations the source uses. This covers `trim`, `indexOf`,
  `split` on one character, `join`, the default `sort` order, and `${n}` for a number.
- `Patterns`: the four global regular expressions as scanners. They keep the engine's
  leftmost-first search, greedy and lazy runs, and `.` stopping at line terminators.
  `String.prototype.replace` with a callback is `Splice` over `Matches`.
- `Attributes`: `parseAttributes`, as a method with the two `replace` loops, proved against
  the function `AttributesOf`.
- `Normalize`: `normalizeContent` and `prepareTpl`, as functions. The template key ignores
  the order of named parameters and keeps the order of positional ones.
- `RefGroups`: the `Ref` record and, as functions on the list of added refs, what the
  registry computes. These are the groups by key, the `first` flags, the shared name of
  each duplicate group, the `nameMap`, and the answer of `isdup`.
- `Registry`: the `Refs` class. Its fields are `refs`, `refMap`, the insertion order of
  `refMap`'s keys, and `nameMap`. `add` and `finalize` update them in place, with the loops
  of the source. They are proved against the `RefGroups` functions, under the invariant
  `Valid()`.
- `Alignment`: replacing self-closing ref tags that sit on one line by others of that kind
  keeps every full-ref match's attributes and content, as long as no match holds a second `<ref`.
- `TagNames`: every name pass 2 writes fits inside such a tag.
- `Dedup`: the driver. It has the three `replace` passes as methods with loops, proved equal
  to the function `Deduplicate`, and the properties of the whole transformation.

A thrown exception is modelled as a `Failure` carrying the message the source throws.

## Model

| member | source | states |
|---|---|---|
| Text.TrimLeftShape | deduplicateRefs.js:186 | trimming the start removes a prefix of white space and stops at the first other character |
| Text.TrimRightShape | deduplicateRefs.js:186 | trimming the end removes a suffix of white space and stops at the last other character |
| Text.TrimEnds | deduplicateRefs.js:186 | a trimmed string neither starts nor ends with white space |
| Text.TrimAllSpace | deduplicateRefs.js:255 | a string of white space trims to the empty string |
| Text.TrimNoSpace | deduplicateRefs.js:222 | a string without white space at either end is its own trim |
| Text.TrimAll | deduplicateRefs.js:222 | `map(v => v.trim())` trims each piece and keeps the count |
| Text.TrimKeepsOut | deduplicateRefs.js:231 | trimming cannot introduce an `=` (or any character the string lacks) |
| Text.IndexOf | deduplicateRefs.js:125 | `indexOf(pat, from)` is -1 exactly when `pat` occurs nowhere from `from`, else the first occurrence at or after `from` |
| Text.Split | deduplicateRefs.js:222 | `split(c)` gives at least one piece; the pieces joined with `c` give the string back; no piece holds `c`; one piece iff `c` is absent |
| Text.FirstIndex | deduplicateRefs.js:222 | the first occurrence of a character that is present |
| Text.SplitJoin | deduplicateRefs.js:233 | splitting a join, on a separator no piece contains, gives the pieces back |
| Text.NatToString | deduplicateRefs.js:75 | `${no}` is a non-empty string of digits whose value is `no` |
| Text.NatToStringInjective | deduplicateRefs.js:75 | different numbers are written differently |
| Text.StrLeTotal | deduplicateRefs.js:235 | the default sort order compares any two strings |
| Text.StrLeAntisymmetric | deduplicateRefs.js:235 | strings ordered both ways are equal |
| Text.StrLeTransitive | deduplicateRefs.js:235 | the default sort order is transitive |
| Text.Insert | deduplicateRefs.js:235 | inserting into a sorted list keeps it sorted and adds exactly the element |
| Text.Sort | deduplicateRefs.js:235 | `sort()` returns a sorted permutation of its input |
| Text.SortedUnique | deduplicateRefs.js:235 | a multiset of strings has only one sorted arrangement |
| Text.SortPermutationInvariant | deduplicateRefs.js:235 | permutations of one list sort to the same list |
| Text.MapPermutation | deduplicateRefs.js:224-234 | mapping permuted lists gives permuted results |
| Patterns.RunEnd | deduplicateRefs.js:250 | a greedy run of a class ends at the first character outside the class |
| Patterns.QuoteEnd | deduplicateRefs.js:250 | the lazy `.*?["']` stops at the first quote, and fails on a line terminator before it |
| Patterns.CloseEnd | deduplicateRefs.js:115 | the lazy `.+?<\/ref>` stops at the first `</ref>` and crosses no line terminator |
| Patterns.QuotedAttrShape | deduplicateRefs.js:250 | a quoted-pair match is a word, `=`, a quote, a value free of quotes and line breaks, and a quote |
| Patterns.BareAttrShape | deduplicateRefs.js:255 | an unquoted-pair match is a word, `=`, and the longest non-space run after it |
| Patterns.FullRefShape | deduplicateRefs.js:115 | a full-ref match is `<ref`, attribute text without `>` or `/`, `>`, non-empty one-line content, and the first `</ref>` after it |
| Patterns.ShortRefShape | deduplicateRefs.js:116 | a short-ref match is `<ref`, attribute text without `>` or `/`, and `/>` |
| Patterns.MatchAt | deduplicateRefs.js:115-116 | every match is non-empty and starts where it is tried |
| Patterns.NextMatch | deduplicateRefs.js:123 | a global regex finds the leftmost match at or after `lastIndex`; nothing matches before it |
| Patterns.Matches | deduplicateRefs.js:123 | the matches `replace` reports are in order and do not overlap |
| Patterns.MatchesAreMatches | deduplicateRefs.js:123 | each reported match is what the pattern matches at its start |
| Patterns.SpliceIdentity | deduplicateRefs.js:174 | a callback that returns each match's own text leaves the text unchanged |
| Patterns.SpliceEnds | deduplicateRefs.js:164 | the text a `replace` pass returns ends with the last match's replacement followed by the text after that match |
| Patterns.SpliceUnfold | deduplicateRefs.js:164 | one step of `replace`: the text up to the match, its replacement, then the rest replaced |
| Attributes.ParseAttributes | deduplicateRefs.js:246-266 | returns the map `AttributesOf` and the residue it warns about |
| Attributes.TakePairs | deduplicateRefs.js:250-253 | one `replace` pass stores every pair in match order and removes every match from the text |
| Attributes.TakeOne | deduplicateRefs.js:251-252 | one callback stores its pair and cuts its match out |
| Attributes.BlankAttributes | deduplicateRefs.js:246-266 | empty or all-white-space attribute text gives the empty map and no residue |
| Attributes.BindLastWins | deduplicateRefs.js:251 | the last pair with a key decides its value |
| Attributes.BindKeys | deduplicateRefs.js:251 | the keys after a pass are the old keys plus every pair's key |
| Attributes.BindKeepsAbsent | deduplicateRefs.js:256 | a key no pair carries keeps its value |
| Attributes.AttributeKeys | deduplicateRefs.js:250-258 | a key is present iff some quoted or unquoted pair carries it |
| Attributes.QuotedPairValue | deduplicateRefs.js:250-253 | a quoted pair, with `"` or `'`, sets its key unless a later quoted pair or any unquoted pair has the same key |
| Attributes.BarePairValue | deduplicateRefs.js:255-258 | an unquoted pair sets its key unless a later unquoted pair has the same key |
| Attributes.MatchStartsWithWord | deduplicateRefs.js:250 | every attribute match starts with a word character |
| Attributes.NoPairsInSpace | deduplicateRefs.js:255 | white space holds no attribute pair and is left as it was |
| Normalize.CloserIsAtEnd | deduplicateRefs.js:222 | `}}\s*$` can only match at the end of the trimmed text |
| Normalize.StripCloser | deduplicateRefs.js:222 | the closing braces and the white space after them are removed when present; otherwise nothing is |
| Normalize.Params | deduplicateRefs.js:223-236 | the parameter list is sorted and is a permutation of the rewritten parameters |
| Normalize.PrepareTpl | deduplicateRefs.js:220-239 | the name is the trimmed first piece, without `\|`; the parameters are sorted, one per `\|`-piece after the name |
| Normalize.TrimNamedParts | deduplicateRefs.js:231 | a named parameter comes out with its key and every `=`-separated part trimmed |
| Normalize.RewriteDecompose | deduplicateRefs.js:224-234 | the rewritten parameters are the positional values as `n::k=value`, numbered from 1 in order, plus the trimmed named ones |
| Normalize.NamedOrderIgnored | deduplicateRefs.js:235 | reordering named parameters gives the same template key |
| Normalize.ParamsEqualIff | deduplicateRefs.js:223-236 | two templates get equal parameter lists exactly when their positional values agree in order and their trimmed named parameters agree as a multiset, if no named key is written `n::…` |
| Normalize.PositionalOrderMatters | deduplicateRefs.js:227-229 | swapping two different positional values changes the parameter list |
| Normalize.KeyValueInjective | deduplicateRefs.js:229 | `n::k=value` determines both `k` and the value |
| Normalize.NormalizeContent | deduplicateRefs.js:185-210 | empty content gives `-`; content that is not a single template gives its trim |
| Normalize.IsSingleTemplateIff | deduplicateRefs.js:201-203 | the template test holds iff the trimmed text starts with `{{`, holds a `\|`, and has no other `{{` |
| Normalize.BlankContent | deduplicateRefs.js:186-191 | white-space-only content gives the empty string, not `-` |
| Normalize.SentinelCollides | deduplicateRefs.js:188-191 | empty content and the content `-` get the same key |
| RefGroups.SkipIff | deduplicateRefs.js:15-22 | more keys than the `name` key alone iff some key other than `name` is present |
| RefGroups.NewRef | deduplicateRefs.js:9-14 | the constructor's attributes are the parsed attribute text |
| RefGroups.RefFrom | deduplicateRefs.js:9-31 | name is the `name` attribute or empty; skip iff a key other than `name` exists; content and normalized key kept only when not skipped and non-empty; not first, not duplicate |
| RefGroups.NewRefContent | deduplicateRefs.js:24-29 | a ref with non-empty content keeps it and is keyed by its normalized form, unless skipped |
| RefGroups.KeysInOrder | deduplicateRefs.js:51-53 | refMap's keys: each added key once, in order of first addition |
| RefGroups.Positions | deduplicateRefs.js:55 | a group lists the positions of its refs in increasing order |
| RefGroups.PositionsComplete | deduplicateRefs.js:55 | every ref with a key is in that key's group |
| RefGroups.DupAt | deduplicateRefs.js:93-105 | `isdup` is undefined iff the index is past the end, and returns the ref iff its content equals the argument and it is a duplicate |
| RefGroups.FirstFlags | deduplicateRefs.js:51-54 | after an add, a ref is marked first exactly when it is the first of its key |
| RefGroups.AddExisting | deduplicateRefs.js:45-57 | adding a ref to an existing group appends it to that group and to the list, and keeps the registry consistent |
| RefGroups.AddNew | deduplicateRefs.js:45-57 | adding a ref with a new key opens a group, marks the ref first, and appends the key |
| RefGroups.AddAllAt | deduplicateRefs.js:45-57 | the `j`-th kept ref sits in the registry at the count of kept refs before it, first iff no earlier kept ref shares its key |
| RefGroups.AddAllLength | deduplicateRefs.js:46-48 | the registry holds exactly the refs that are not skipped |
| RefGroups.AddAllPrefix | deduplicateRefs.js:56 | `add` only appends |
| RefGroups.AddAllKeys | deduplicateRefs.js:45-57 | a key is held iff some kept ref has it |
| RefGroups.AddAllKept | deduplicateRefs.js:46-48 | no skipped ref is ever stored |
| RefGroups.AddAllFlags | deduplicateRefs.js:45-57 | a run of adds stores no skipped ref and marks first exactly the opener of each key |
| RefGroups.AddAllUnmarked | deduplicateRefs.js:45-57 | adding marks no ref duplicate |
| RefGroups.LongestSpec | deduplicateRefs.js:68-73 | the picked name is at least as long as every name, empty iff all names are empty, and otherwise the first name of its length |
| RefGroups.UnnamedGroup | deduplicateRefs.js:74-76 | a group with no named member is named `dd:` followed by its number |
| RefGroups.OrdinalsDistinct | deduplicateRefs.js:60-84 | duplicate groups are numbered 1, 2, … without repeats, in key order |
| RefGroups.UnnamedGroupsDistinct | deduplicateRefs.js:74-76 | two unnamed duplicate groups get different `dd:` names |
| RefGroups.DdNamesDistinct | deduplicateRefs.js:75 | `dd:m` and `dd:n` differ for different numbers |
| RefGroups.DupCountGrows | deduplicateRefs.js:84 | the group counter never goes back and rises by one per duplicate group |
| RefGroups.FinalizedKeys | deduplicateRefs.js:59-86 | finalize changes no ref's key |
| RefGroups.FinalizedConsistent | deduplicateRefs.js:59-86 | finalize keeps the registry consistent |
| RefGroups.FinalizedFlags | deduplicateRefs.js:59-86 | finalize keeps the first flags and stores no skipped ref |
| RefGroups.RenameGroupAt | deduplicateRefs.js:78-83 | renaming a group maps each member's old name to the group's name and keeps every other entry |
| RefGroups.RenamedDomain | deduplicateRefs.js:59-86 | nameMap holds the old entries and the name of every member of a duplicate group |
| RefGroups.RenamedValue | deduplicateRefs.js:79 | a name used in one duplicate group only is mapped to that group's name |
| RefGroups.RenameKeysValue | deduplicateRefs.js:62-85 | visiting the keys maps a name used by one group only to that group's name |
| RefGroups.NoRepeatsNoDup | deduplicateRefs.js:64-66 | with no key held twice there is no duplicate group |
| RefGroups.DistinctKeysUntouched | deduplicateRefs.js:59-86 | with no key held twice, finalize changes no ref and maps no name |
| RefGroups.AddAllFinalAt | deduplicateRefs.js:93-105 | after all adds and finalize, `isdup` at a kept ref's registry position answers that ref, renamed, when its group is a duplicate group, else false |
| RefGroups.PartlyAll | deduplicateRefs.js:62 | once every key is visited, the refs are the finalized ones |
| RefGroups.GroupStep | deduplicateRefs.js:67-84 | one duplicate group of the loop moves the state from the first `i` keys to the first `i + 1` |
| RefGroups.SingleStep | deduplicateRefs.js:64-66 | a key with one ref changes nothing |
| Registry.CreateRef | deduplicateRefs.js:9-31 | `new Ref(attr, content)` is `NewRef(attr, content)` |
| Registry.Refs.constructor | deduplicateRefs.js:34-40 | an empty, consistent registry with an empty nameMap |
| Registry.Refs.Add | deduplicateRefs.js:45-57 | the refs become `AddRef(old refs, r)` (skipped refs dropped; first iff its key is new); nameMap is unchanged; the registry stays consistent |
| Registry.Refs.Register | deduplicateRefs.js:50-56 | add's update of the three fields keeps them consistent |
| Registry.Refs.Finalize | deduplicateRefs.js:59-86 | the refs become `Finalized(old refs)` and nameMap becomes `Renamed(old refs, old nameMap)`; the registry stays consistent |
| Registry.Refs.NameGroups | deduplicateRefs.js:60-85 | the loop over the keys in insertion order, numbering the duplicate groups, yields the finalized refs and nameMap |
| Registry.Refs.NameGroup | deduplicateRefs.js:67-84 | one duplicate group is named and its members renamed and marked |
| Registry.Refs.LongestName | deduplicateRefs.js:68-73 | the first loop over a group returns the first of its longest non-empty names, or "" |
| Registry.Refs.RenameMembers | deduplicateRefs.js:78-83 | each member takes the name and the duplicate mark; nameMap maps its old name to the name |
| Registry.Refs.IsDup | deduplicateRefs.js:93-105 | undefined iff the index is past the end; the ref iff its content matches and it is a duplicate; otherwise false |
| Dedup.FirstOverrun | deduplicateRefs.js:125-127 | the first full match holding `<ref` again from index 2 on |
| Dedup.Thrown | deduplicateRefs.js:123-127 | pass 1 throws iff some full match holds a second `<ref` |
| Dedup.ThrownQuotesFirst | deduplicateRefs.js:126 | the message quotes the first such match |
| Dedup.Gather | deduplicateRefs.js:117-137 | pass 1 either throws on the first overrunning match or registers every full match's ref in order |
| Dedup.GatherOne | deduplicateRefs.js:123-130 | one callback of pass 1 throws on an overrun or adds the ref |
| Dedup.PointShorts | deduplicateRefs.js:147-160 | pass 2 is `PointShortRefs` |
| Dedup.PointShort | deduplicateRefs.js:148-159 | one callback of pass 2 is `ShortRep` |
| Dedup.RewriteDups | deduplicateRefs.js:163-175 | pass 3, with its counter, is `RewriteDuplicates` on the registry's refs |
| Dedup.DeduplicateRefs | deduplicateRefs.js:114-178 | the method with its three passes computes `Deduplicate`: the thrown message, or the rewritten text |
| Dedup.Advance | deduplicateRefs.js:164-175 | one replacement of a `replace` pass advances the output by the text before the match and the replacement |
| Dedup.RawAt | deduplicateRefs.js:129 | pass 1 builds the ref of each full match from its attribute text and content |
| Dedup.RawUnmarked | deduplicateRefs.js:10-11 | constructed refs are neither first nor duplicate |
| Dedup.RawContent | deduplicateRefs.js:24-26 | a kept full ref holds its match's content and is keyed by its normalized form |
| Dedup.ShortPassIdentity | deduplicateRefs.js:147-160 | with an empty nameMap pass 2 changes nothing |
| Dedup.ShortRefRepointed | deduplicateRefs.js:155-157 | a short ref named like a member of one duplicate group becomes `<ref name="N" />` with that group's name |
| Dedup.ShortRefKept | deduplicateRefs.js:149-159 | a short ref whose name no duplicate-group member has is left as it was |
| Dedup.DupPassIdentity | deduplicateRefs.js:163-175 | with no ref marked duplicate, pass 3 changes nothing |
| Dedup.UnmarkedRepsIdentity | deduplicateRefs.js:174 | when `isdup` never answers a ref, every callback of pass 3 returns its match |
| Dedup.DistinctRewrittenUnchanged | deduplicateRefs.js:143-175 | with no two kept refs sharing a key, passes 2 and 3 give the text back |
| Dedup.NoDuplicatesUnchanged | deduplicateRefs.js:114-178 | text without an overrun and without duplicate contents comes back byte for byte |
| Dedup.IntendedRep | deduplicateRefs.js:164-175 | with the counter over kept refs: a skipped or non-duplicate ref is left alone, the first of a group becomes `<ref name="N">content</ref>`, a later one `<ref name="N" />` |
| Dedup.AsWrittenAgrees | deduplicateRefs.js:163-166 | with no skipped full ref, the source's counter and the counter over kept refs give the same pass 3 |
| Dedup.SkippedShift | deduplicateRefs.js:163-175 | as written, a skipped ref before a duplicate pair is rewritten in place of the first member, and the last member is left alone |
| Dedup.SkippedShiftIntended | deduplicateRefs.js:163-175 | with the counter over kept refs, the skipped ref stays, the first member keeps its content and the second is shortened |
| Dedup.SkippedShiftAnswers | deduplicateRefs.js:93-105 | what `isdup` answers at positions 0, 1 and 2 for a skipped ref followed by a duplicate pair |
| Dedup.SkippedShiftDiffers | deduplicateRefs.js:163-175 | on those refs, the source's pass 3 and the corrected one produce different text |
| Dedup.SkippedRefShiftsIndex | deduplicateRefs.js:163-166 | on text whose first full ref is skipped and is followed by two equal refs, the source's result differs from the corrected one |
| Dedup.NoShortRefsPassThree | deduplicateRefs.js:143-175 | without short refs the result is pass 3 alone on the original text |
| Dedup.AlignedRaw | deduplicateRefs.js:129 | matches that agree on attributes and content build the same refs |
| Alignment.TagSpanText | deduplicateRefs.js:116 | a self-closing ref tag on one line is, on its own, a one-line tag |
| Alignment.CloseEndSwapped | deduplicateRefs.js:115 | for two texts that agree up to a one-line short tag and each have one there, the lazy search for `</ref>` finds it in one iff in the other, at the same place before the tag or past the tag in both |
| Alignment.FullRefSwapped | deduplicateRefs.js:115 | tried before such a tag, the full-ref pattern matches in one text iff in the other; the match is the same and ends before the tag, or it holds a second `<ref` |
| Alignment.NextMatchShift | deduplicateRefs.js:115 | the full-ref search on a suffix finds the match the whole text has there, moved by the suffix's offset |
| Alignment.MatchesShiftFrom | deduplicateRefs.js:115 | the full matches of a suffix are those of the whole text from that point, moved by the offset |
| Alignment.ScanSwapped | deduplicateRefs.js:115 | when no match holds a second `<ref`, the full matches of both texts up to the swapped tag agree one for one, and both scans resume just past the tag |
| Alignment.SpliceKeepsFullRefs | deduplicateRefs.js:115-116 | replacing one-line short tags by one-line short tags keeps every full match's attributes and content, one for one |
| TagNames.AttributesTagText | deduplicateRefs.js:250-258 | every attribute value parsed from tag text holds no `>`, `/` or line terminator |
| TagNames.AddAllTagText | deduplicateRefs.js:45-57 | `add` keeps every stored name within tag text |
| TagNames.CanonicalTagText | deduplicateRefs.js:68-76 | the name a duplicate group shares, a member's name or `dd:n`, fits inside a one-line tag |
| TagNames.RenamedTagText | deduplicateRefs.js:59-86 | every name nameMap maps to fits inside a one-line tag |
| TagNames.ShortTagOneLine | deduplicateRefs.js:157 | `<ref name="N" />` is a one-line short tag when N fits inside one |
| Dedup.ShortRefTag | deduplicateRefs.js:116 | a short-ref match whose attributes hold no line terminator is a one-line short tag |
| Dedup.ShortRepsTags | deduplicateRefs.js:147-160 | pass 2 replaces one-line short tags by one-line short tags |
| Dedup.RawTagText | deduplicateRefs.js:129 | every ref pass 1 builds has a name that fits inside a one-line tag |
| Dedup.PassesAligned | deduplicateRefs.js:123-160 | with no overrun and every short ref on one line, pass 3 on the text after pass 2 finds the full refs of pass 1, one for one, with the same attributes and content |
| Dedup.ShortRefsPassThree | deduplicateRefs.js:143-175 | on such text the refs pass 3 reads are the refs pass 1 added; the result is pass 3 over the full matches after pass 2, as written and as intended, and both agree when no full ref is skipped |
| Dedup.ShortRefsRule | deduplicateRefs.js:163-175 | on such text, with the counter over kept refs, a skipped or non-duplicate full ref is left as it was, the first of a group becomes `<ref name="N">content</ref>`, a later one `<ref name="N" />` |

## Left out

- `Dedup.Deduplicate`: the output rule of each full ref is proved for text with short refs
  (`Dedup.ShortRefsRule`, `Dedup.ShortRefsPassThree`) only when no short ref's attribute text
  holds a line terminator. `[^>/]*` in both tag patterns crosses line breaks, and pass 2 writes
  such a short ref on one line, which can make a full match that pass 1 did not see. On
  `<ref>X<ref name="b"` + line break + `/></ref><ref name="b">X</ref><ref>X</ref>`, pass 3 then
  matches the first ref with the short tag inside it and shortens `<ref name="b">X</ref>`, so the
  name `b` loses its definition (traced by hand, not executed).
- `Dedup.Deduplicate`: the property the tests check, that replacing line breaks by a space
  changes the result only by the same replacement, is not stated. It can only hold when no ref
  tag spans a line break, because the content pattern `.+?` stops at line terminators while the
  attribute pattern does not.
- The `fs` debug output and the `console.log`, `console.warn` and `console.error` calls are
  left out. They do not change the result. `ParseAttributes` returns the residue it would warn
  about instead.
- The mw.hook integration with the page editor (deduplicateRefs.js:268-288) is left out. It
  only calls `deduplicateRefs` and compares the result.
- The commented-out URL handling in `normalizeContent` is not code and is not modelled.
- The JavaScript regular-expression engine is replaced by scanners written for the four
  patterns. They follow the engine's matching order for these patterns only.
- Strings are sequences of Unicode characters, not UTF-16 code units. Lengths, `trim`, `\S`
  and the default `sort` order differ from the source on text outside the Basic Multilingual
  Plane.
- `RefGroups.KeysInOrder`: `Object.values` lists keys that look like array indices (such as
  the content `12`) first, in numeric order. The model uses plain insertion order, so the
  numbers in `dd:n` names can differ from the source when such keys exist. Grouping is
  unaffected.
- Keys inherited by plain objects are not modelled. `normalized in this.refMap` and
  `ref.name in refs.nameMap` are also true for keys like `toString` or `constructor`. In
  the source, a ref whose normalized content is `toString` makes `push` fail. A short ref
  named `constructor` is rewritten with the text of a function. The model treats both maps
  as empty at the start.
- `Attributes.AttributesOf`: the key `__proto__` is stored like any other key. In the source,
  `attributes[key] = value` with that key calls the prototype setter and adds no own key, so
  `<ref __proto__="x">abc</ref>` has no keys there and is not skipped, while the model skips it.
- `RefGroups.Key`: a ref without normalized content is keyed by the string `false`, which
  is what the object key `false` becomes. Only refs with non-empty content reach `add` from
  the driver, so this key does not occur there.
- `Dedup.SkippedRefShiftsIndex`: the discrepancy is proved for texts without short refs, with
  three full refs, the last one ending the text. Texts with short refs are affected the same
  way but are not covered by this lemma.

## Findings

| source | as written | input that shows it | evidently intended | confidence | as-written member | corrected member |
|---|---|---|---|---|---|---|
| deduplicateRefs.js:163-166 | pass 3 counts every full-ref match to index `refs.refs`. `add` never stores skipped refs (any attribute besides `name`), so after a skipped ref the index points one ref further on. | `<ref group="n">abc</ref><ref>abc</ref><ref>abc</ref>`: the grouped ref is rewritten as `<ref name="dd:1">abc</ref>`, the second ref becomes `<ref name="dd:1" />` and the third is left as it was | count only the refs `add` keeps and leave skipped refs alone. The first member of a group keeps its content and the later members are shortened. | not executed | Dedup.SkippedRefShiftsIndex | Dedup.IntendedRep |

`Dedup.DeduplicateRefs` and `Dedup.Deduplicate` model the code as written. The corrected
pass 3 is `Dedup.DeduplicateIntended`. It throws exactly when the source does. It agrees
with the source whenever no full ref is skipped (`Dedup.AsWrittenAgrees`). It leaves text
without duplicates unchanged (`Dedup.NoDuplicatesUnchanged`).
