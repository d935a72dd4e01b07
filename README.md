# viewholder-generator: the layout and entry core in Dafny

The plugin generates ViewHolder boilerplate from an Android layout. This
project models the part that does the actual work.

- **Entry** (`model/Entry.kt`) turns one layout tag into a record. It takes
  the tag or class name and the raw `android:id` value. It yields:
  - the id and its namespace flag;
  - the `R.id.` accessor;
  - the short and the qualified class name;
  - a camel-cased variable name.

  `checkValidity` then tests that name against the Java identifier pattern.
- **Utils** (`util/Utils.kt`) does three things:
  - it decides whether the caret sits on an `R.layout.<name>` reference;
  - it resolves a layout file by name, trying the module scope, then the
    module scope with libraries, then the whole project;
  - it walks a layout's XML tags into one list of entries. Resolved
    `<include layout="@layout/…">` tags are followed into the included file,
    at any depth.

The IDE is an input:
- the PSI tree behind the caret is a record of functions (`SourceFile`);
- the file-name index is a function from a scope and a file name to a
  sequence of files;
- the module of a file or element is a function;
- each layout file has its parsed tag tree (`Tag`).

Files:

- `wrappers.dfy`: `Option` and `Result`.
- `kotlin_text.dfy`: Kotlin's `split(Regex(c)).dropLastWhile { it.isEmpty() }`
  for a single-character separator (`Tokens`), and `Join`, which inverts the
  plain split and inverts `Tokens` up to trailing separators. Also
  ASCII case mapping and `equals(ignoreCase = true)`.
- `entry.dfy`, module `EntryModel`:
  - the two patterns, as hand-written matchers, proved equal to their
    reference readings;
  - the variable-name derivation;
  - the class `Entry`, with its constructor, its `generateVariableName`
    loop and `checkValidity`.
- `utils.dfy`, module `Utils`:
  - layout-name parsing, the scope fallback and the caret predicate;
  - the walk as a specification function (`ExtractFile` and its siblings),
    factored through the include expansion, and related by lemmas to the
    independent post-order listing of the tags;
  - the imperative visitor, which appends to one shared `EntryList` and is
    proved equal to the specification.

Two behaviours of the code worth knowing:

- **Order.** The walk is post-order: the visitor calls `super.visitElement`
  first (`Utils.kt:117`), so a tag's children are visited, and their entries
  appended, before the tag itself. `IncludeFreeWalkIsPostOrder` states this.
- **Empty `_`-words.** An id whose first `_`-word is empty, such as
  `_leading`, makes `generateVariableName` index -1 (`Entry.kt:59-60`); so do
  an empty word between two others (`a__b`) and a word made only of dots
  (`a_..`). Trailing underscores are dropped first (`Entry.kt:56`) and never
  crash: `a__` gives `a` and `_` gives the empty name
  (`TrailingUnderscoresDropped`). The resulting
  `ArrayIndexOutOfBoundsException` is not caught by the
  `IllegalArgumentException` handler (`Utils.kt:152`), so the whole
  extraction fails. `VariableNameFails` and `DotWordFails` state this.

Java regex semantics that the model keeps:
- `find()` is unanchored, so the id pattern finds its leftmost match.
- In the validity pattern, Java's `$` also matches just before one final
  line terminator, so `name\n` counts as valid.

## Model

| member | source | states |
|---|---|---|
| EntryModel.FindFrom | src/main/kotlin/com/fbsum/plugin/viewholdergenerator/model/Entry.kt:24-25 | `find()`: the result is the match at the leftmost start position where the id matcher succeeds, and None means no position matches |
| EntryModel.MatchIdAtSound | src/main/kotlin/com/fbsum/plugin/viewholdergenerator/model/Entry.kt:8 | whatever the id matcher accepts matches `@\+?(android:)?id/([^$]+)$` up to ASCII case; group 2 is the rest of the input and the namespace flag says whether `android:` took part |
| EntryModel.MatchIdAtComplete | src/main/kotlin/com/fbsum/plugin/viewholdergenerator/model/Entry.kt:8 | every way the pattern matches at a position is found by the matcher, with the same group 2 and the same `android:` flag |
| EntryModel.FindIdShape | src/main/kotlin/com/fbsum/plugin/viewholdergenerator/model/Entry.kt:24-26 | a parsed id is non-empty, has no `$` and is a proper suffix of the raw value preceded by `id/` up to case |
| EntryModel.AndroidNamespaceIgnoresCase | src/main/kotlin/com/fbsum/plugin/viewholdergenerator/model/Entry.kt:24-29 | matching ignores case: `@Android:ID/x` gives id `x` in the Android namespace |
| EntryModel.MalformedIdsDoNotMatch | src/main/kotlin/com/fbsum/plugin/viewholdergenerator/model/Entry.kt:24-25 | a value without `@` (`title`) and one with `$` after `id/` (`@+id/a$b`) do not match |
| EntryModel.UnmatchedIdKeepsDefaults | src/main/kotlin/com/fbsum/plugin/viewholdergenerator/model/Entry.kt:12-37 | no match is not an error: the entry is still built, with id `""`, no Android namespace, accessor `R.id.` and variable name `""` |
| EntryModel.InitialViewFields | src/main/kotlin/com/fbsum/plugin/viewholdergenerator/model/Entry.kt:12-49 | a fresh entry's fields: id and namespace from the match (or the defaults), `fullId` is `android.R.id.`/`R.id.` plus the id, the class name split, the derived variable name, `used` set and `isValid` clear |
| EntryModel.QualifiedClassName | src/main/kotlin/com/fbsum/plugin/viewholdergenerator/model/Entry.kt:40-43 | a name with a non-empty `.`-component after a `.` (trailing dots allowed) has `fullName` the whole input and `name` that last component |
| EntryModel.QualifiedClassNameShape | src/main/kotlin/com/fbsum/plugin/viewholdergenerator/model/Entry.kt:40-43 | conversely, a qualified result comes only from such a name, and `fullName` is the input |
| EntryModel.UnqualifiedClassName | src/main/kotlin/com/fbsum/plugin/viewholdergenerator/model/Entry.kt:40-47 | a name whose dots all trail (or that has none) keeps `fullName` null and `name` the input unchanged |
| EntryModel.VariableNameFails | src/main/kotlin/com/fbsum/plugin/viewholdergenerator/model/Entry.kt:56-60 | the variable name cannot be built (the source indexes -1) exactly when some `_`-word, after trailing empty words are dropped, has no character other than `.` |
| EntryModel.DotWordFails | src/main/kotlin/com/fbsum/plugin/viewholdergenerator/model/Entry.kt:56-60 | an empty or dots-only word anywhere among the `_`-words (a leading `_`, `a__b`, `a_.._b`), whatever the trailing underscores, makes the derivation fail |
| EntryModel.SnakeCaseBecomesCamelCase | src/main/kotlin/com/fbsum/plugin/viewholdergenerator/model/Entry.kt:55-67 | `_`-words each spelled as an optional `prefix.`, a last `.`-component and trailing dots (then any trailing `_`) give the camel case of those components: the first as is, every later one with its first letter upper-cased |
| EntryModel.DerivedNameIsCamelCase | src/main/kotlin/com/fbsum/plugin/viewholdergenerator/model/Entry.kt:55-67 | every id whose variable name is derived at all gets CamelCase of the last non-empty `.`-component of each of its `_`-words, one component per word |
| EntryModel.DottedWordPart | src/main/kotlin/com/fbsum/plugin/viewholdergenerator/model/Entry.kt:59-64 | a word contributes its last non-empty `.`-component, upper-cased at the front after the first word |
| EntryModel.DottedWordShape | src/main/kotlin/com/fbsum/plugin/viewholdergenerator/model/Entry.kt:59-60 | every word with a character other than `.` is spelled as an optional `prefix.`, a last component and trailing dots, so the lemmas above cover every word that does not crash |
| EntryModel.DottedIdExample | src/main/kotlin/com/fbsum/plugin/viewholdergenerator/model/Entry.kt:55-67 | `a.b_c.d` gives `bD` |
| EntryModel.SnakeIdExample | src/main/kotlin/com/fbsum/plugin/viewholdergenerator/model/Entry.kt:55-67 | `user_name_label` gives `userNameLabel` |
| EntryModel.PlainIdIsItsVariableName | src/main/kotlin/com/fbsum/plugin/viewholdergenerator/model/Entry.kt:55-67 | an id with neither `_` nor `.` is its own variable name (`title` stays `title`) |
| EntryModel.VariableNameHasNoSeparators | src/main/kotlin/com/fbsum/plugin/viewholdergenerator/model/Entry.kt:56-64 | a derived variable name contains neither `_` nor `.` |
| EntryModel.Entry.GenerateVariableName | src/main/kotlin/com/fbsum/plugin/viewholdergenerator/model/Entry.kt:55-67 | the loop over the `_`-words builds the derived name (last `.`-component of each word, first letter upper-cased after the first word), or reports the index -1 failure |
| EntryModel.Entry.constructor | src/main/kotlin/com/fbsum/plugin/viewholdergenerator/model/Entry.kt:5-50 | the constructed entry holds exactly the fields of `InitialView` |
| EntryModel.ValidityPatternMeaning | src/main/kotlin/com/fbsum/plugin/viewholdergenerator/model/Entry.kt:9 | the validity matcher accepts exactly an identifier (`[a-zA-Z_$]` then `[A-Za-z0-9_$]*`) followed by nothing or one final line terminator |
| EntryModel.ValidityWithoutTerminators | src/main/kotlin/com/fbsum/plugin/viewholdergenerator/model/Entry.kt:9 | for names without line terminators the validity check is exactly the identifier rule, in both directions |
| EntryModel.ValidityExamples | src/main/kotlin/com/fbsum/plugin/viewholdergenerator/model/Entry.kt:9 | `_foo1`, `$bar` and `name\n` are valid; `1abc`, `foo-bar` and the empty name are not |
| EntryModel.Entry.CheckValidity | src/main/kotlin/com/fbsum/plugin/viewholdergenerator/model/Entry.kt:72-76 | returns whether the variable name matches the validity pattern, stores that in `isValid` and changes no other field |
| KotlinText.TokensOfJoin | src/main/kotlin/com/fbsum/plugin/viewholdergenerator/model/Entry.kt:56-59 | split-and-drop-trailing-empties undoes joining separator-free parts that end non-empty, whatever separators trail |
| KotlinText.TokensDecompose | src/main/kotlin/com/fbsum/plugin/viewholdergenerator/model/Entry.kt:40 | conversely, every string is its tokens joined by the separator, followed by some number of separators |
| KotlinText.TokensEmpty | src/main/kotlin/com/fbsum/plugin/viewholdergenerator/model/Entry.kt:59-60 | no token remains exactly when the string consists of separators only |
| Utils.GetLayoutName | src/main/kotlin/com/fbsum/plugin/viewholdergenerator/util/Utils.kt:164-175 | a name is returned only for a present value that starts with `@` and contains `/`; the name is non-empty and `/`-free |
| Utils.LayoutNameOfReference | src/main/kotlin/com/fbsum/plugin/viewholdergenerator/util/Utils.kt:164-175 | `@<type>/<name>`, with any number of trailing `/`, gives `<name>`, whatever the type (`@drawable/x` gives `x`, `@layout/foo/` gives `foo`) |
| Utils.LayoutNameShape | src/main/kotlin/com/fbsum/plugin/viewholdergenerator/util/Utils.kt:164-175 | conversely, every name returned comes from such a reference |
| Utils.NestedReferenceIsNoLayoutName | src/main/kotlin/com/fbsum/plugin/viewholdergenerator/util/Utils.kt:169-171 | three parts (`@layout/a/b`) give no name |
| Utils.FirstHit | src/main/kotlin/com/fbsum/plugin/viewholdergenerator/util/Utils.kt:86-100 | None exactly when every scope is empty; otherwise the first file of the first non-empty scope |
| Utils.ResolveLayoutResourceFile | src/main/kotlin/com/fbsum/plugin/viewholdergenerator/util/Utils.kt:72-101 | the module scope first, the library-inclusive one only after it came back empty, the whole project only after both did or without a module; the first file of the scope that had one, None only when every consulted scope was empty |
| Utils.ModuleScopeFirst | src/main/kotlin/com/fbsum/plugin/viewholdergenerator/util/Utils.kt:76-100 | a file in the module's own scope wins over libraries and the rest of the project |
| Utils.CaretElement | src/main/kotlin/com/fbsum/plugin/viewholdergenerator/util/Utils.kt:22-66 | an element is chosen exactly when `isValidElement` holds; the element at the caret is preferred over the one before it; the chosen one is a layout element |
| Utils.GetLayoutFileFromCaret | src/main/kotlin/com/fbsum/plugin/viewholdergenerator/util/Utils.kt:49-67 | resolves `<text>.xml` of the chosen element from its module; a file is found only when `isValidElement` holds |
| Utils.WalkFollowsExpansion | src/main/kotlin/com/fbsum/plugin/viewholdergenerator/util/Utils.kt:116-155 | the walk is the id check applied in order to the tag list with every resolved include replaced by the included file's tags; it fails where that expansion fails |
| Utils.IncludeFreeWalkIsPostOrder | src/main/kotlin/com/fbsum/plugin/viewholdergenerator/util/Utils.kt:116-151 | without resolved includes, the entries are those of the tags in post-order: every tag after its children, siblings in document order |
| Utils.IncludeSplicesFile | src/main/kotlin/com/fbsum/plugin/viewholdergenerator/util/Utils.kt:123-134 | a resolved include among siblings: the entries of the siblings before it, then of its children, then all of the included file walked against that file, then of the siblings after it; its own id is ignored |
| Utils.ExtractTagsAppend | src/main/kotlin/com/fbsum/plugin/viewholdergenerator/util/Utils.kt:114-117 | the walk of a concatenation of sibling lists is the first list's walk followed by the second's |
| Utils.DuplicatesKept | src/main/kotlin/com/fbsum/plugin/viewholdergenerator/util/Utils.kt:151 | the list is not deduplicated: a tag walked twice yields its entries twice |
| Utils.OneEntryPerIdTag | src/main/kotlin/com/fbsum/plugin/viewholdergenerator/util/Utils.kt:139-151 | the id check of a tag list succeeds exactly when no id-bearing tag makes Entry throw; then the k-th entry is the record of the k-th tag with an `android:id` value, named by its `class` value if it has one |
| Utils.MoreFuelSameWalk | src/main/kotlin/com/fbsum/plugin/viewholdergenerator/util/Utils.kt:130-132 | the include bound only cuts the walk off: a walk that does not stop at it gives the same result under any larger bound |
| Utils.EntryList.Add | src/main/kotlin/com/fbsum/plugin/viewholdergenerator/util/Utils.kt:151 | appends one entry to the shared list and keeps every earlier entry |
| Utils.GetEntriesFromLayout | src/main/kotlin/com/fbsum/plugin/viewholdergenerator/util/Utils.kt:106-108 | a new list filled by the walk of the file; it succeeds exactly when the specification does and then holds exactly its entries |
| Utils.WalkLayout | src/main/kotlin/com/fbsum/plugin/viewholdergenerator/util/Utils.kt:113-159 | the walk of one file appends exactly that file's entries to the shared list and only appends |
| Utils.VisitTags | src/main/kotlin/com/fbsum/plugin/viewholdergenerator/util/Utils.kt:114-117 | the sibling tags, visited in document order, append exactly the entries of their walks; the first failure stops the walk |
| Utils.VisitElement | src/main/kotlin/com/fbsum/plugin/viewholdergenerator/util/Utils.kt:116-156 | one tag appends its children's entries, then its own |
| Utils.VisitOwn | src/main/kotlin/com/fbsum/plugin/viewholdergenerator/util/Utils.kt:123-137 | an include that resolves appends the included file's entries (resolved from the module of the file being walked) and nothing else; otherwise the id check runs |
| Utils.AddIdEntry | src/main/kotlin/com/fbsum/plugin/viewholdergenerator/util/Utils.kt:139-155 | a tag with an `android:id` value appends exactly one Entry named by its `class` value if it has one, else by its tag name; a tag without one appends nothing |
| KotlinText.Tokens | src/main/kotlin/com/fbsum/plugin/viewholdergenerator/model/Entry.kt:56 | `split(Regex(c)).dropLastWhile { it.isEmpty() }`: the separator-free pieces, the last one non-empty |
| EntryModel.MatchIdAt | src/main/kotlin/com/fbsum/plugin/viewholdergenerator/model/Entry.kt:8 | the id pattern tried at one start position: `@`, an optional `+`, an optional `android:` and `id/` in any ASCII case, then a non-empty `$`-free rest to the end |
| EntryModel.VariableNameOf | src/main/kotlin/com/fbsum/plugin/viewholdergenerator/model/Entry.kt:55-67 | the variable name generateVariableName builds from an id, None where it indexes -1 |
| EntryModel.SplitClassName | src/main/kotlin/com/fbsum/plugin/viewholdergenerator/model/Entry.kt:40-47 | `name` and `fullName` from the `.`-split of the class name |
| EntryModel.MatchesValidityPattern | src/main/kotlin/com/fbsum/plugin/viewholdergenerator/model/Entry.kt:9 | the validity pattern run with `find()`: an identifier start, the greedy run of identifier parts, then nothing or one final line terminator |
| EntryModel.InitialView | src/main/kotlin/com/fbsum/plugin/viewholdergenerator/model/Entry.kt:12-50 | all fields of a freshly constructed Entry, None where the constructor throws |
| Utils.IsLayoutElement | src/main/kotlin/com/fbsum/plugin/viewholdergenerator/util/Utils.kt:32-44 | false for no element; otherwise whether the first child of the parent (of the parent's parent for a leaf) reads `R.layout` |
| Utils.IsValidElement | src/main/kotlin/com/fbsum/plugin/viewholdergenerator/util/Utils.kt:22-30 | the element at the caret or the one just before it is a layout element |
| Utils.IncludedFile | src/main/kotlin/com/fbsum/plugin/viewholdergenerator/util/Utils.kt:123-131 | the file an `include` tag (any letter case) with a `layout` name stands for, resolved as `<name>.xml` from the module of the file being walked |
| Utils.IdEntry | src/main/kotlin/com/fbsum/plugin/viewholdergenerator/util/Utils.kt:139-155 | a tag with an `android:id` value yields one entry named by `class` or the tag name, a tag without one none, and a failure where Entry throws |
| Utils.ExtractFile | src/main/kotlin/com/fbsum/plugin/viewholdergenerator/util/Utils.kt:113-114 | the entries of a whole file: the walk of its top-level tags |
| Utils.ExtractTags | src/main/kotlin/com/fbsum/plugin/viewholdergenerator/util/Utils.kt:114-117 | the entries of sibling tags, in document order; the first failure wins |
| Utils.ExtractTag | src/main/kotlin/com/fbsum/plugin/viewholdergenerator/util/Utils.kt:116-117 | the entries of one tag: its children's first, then its own |
| Utils.OwnEntries | src/main/kotlin/com/fbsum/plugin/viewholdergenerator/util/Utils.kt:123-151 | a resolved include contributes the included file (one level of the bound used up) and nothing of its own; any other tag its id entry |
| EntryModel.TrailingUnderscoresDropped | src/main/kotlin/com/fbsum/plugin/viewholdergenerator/model/Entry.kt:56 | trailing `_` are dropped before the words are read: `a__` gives `a` and `_` gives the empty name |
| EntryModel.FindId | src/main/kotlin/com/fbsum/plugin/viewholdergenerator/model/Entry.kt:24-25 | `matcher.find()` from the start of the raw value: the leftmost position where the id pattern matches |
| EntryModel.FullId | src/main/kotlin/com/fbsum/plugin/viewholdergenerator/model/Entry.kt:33-37 | the accessor: `android.R.id.` before the id in the Android namespace, `R.id.` otherwise |
| EntryModel.UpperFirst | src/main/kotlin/com/fbsum/plugin/viewholdergenerator/model/Entry.kt:61-63 | the first character upper-cased (ASCII), the rest unchanged; the empty string unchanged |
| EntryModel.WordPart | src/main/kotlin/com/fbsum/plugin/viewholdergenerator/model/Entry.kt:59-63 | one pass of the loop body: the last non-empty `.`-token of the word, upper-cased at the front after index 0; None where the token list is empty and the source indexes -1 |
| EntryModel.CamelJoin | src/main/kotlin/com/fbsum/plugin/viewholdergenerator/model/Entry.kt:57-66 | the `StringBuilder` accumulation: the parts appended in order; None as soon as one part is missing |
| Utils.SearchOrder | src/main/kotlin/com/fbsum/plugin/viewholdergenerator/util/Utils.kt:74-89 | the scopes tried in order: module with dependencies, then with libraries, then the whole project; only the last when the element has no module |
| Utils.Holder | src/main/kotlin/com/fbsum/plugin/viewholdergenerator/util/Utils.kt:38-42 | the element whose first child is read: `parent.parent` for a leaf, `parent` otherwise |
| Utils.IdAttributes | src/main/kotlin/com/fbsum/plugin/viewholdergenerator/util/Utils.kt:140-148 | a tag without an `android:id` value gives nothing; otherwise its value and the `class` value when present, else the tag name |
| KotlinText.Split | src/main/kotlin/com/fbsum/plugin/viewholdergenerator/model/Entry.kt:56 | `split(Regex(c))` on a one-character separator: every separator-delimited part, empty ones included, and at least one part |
| KotlinText.DropTrailingEmpty | src/main/kotlin/com/fbsum/plugin/viewholdergenerator/model/Entry.kt:56 | `dropLastWhile { it.isEmpty() }`: the longest prefix of the parts that does not end in an empty part |
| KotlinText.EqualsIgnoreCaseAscii | src/main/kotlin/com/fbsum/plugin/viewholdergenerator/util/Utils.kt:123 | `equals(..., ignoreCase = true)`, and the comparison behind the id pattern's `CASE_INSENSITIVE` (Entry.kt:8): equal lengths and equal characters up to ASCII case |

## Left out

- The IDE is abstract. PSI elements, `FilenameIndex`, `ModuleUtil`, and the
  way `XmlRecursiveElementVisitor` reaches tags are function parameters or
  the `Tag` datatype; their behaviour is not modelled. Non-tag PSI elements,
  which the visitor skips (`Utils.kt:119-121`), do not appear in the tree.
- The `Project` argument of `resolveLayoutResourceFile` is folded into the
  index function.
- `isLayoutElement` takes the parent (and the parent's parent) to exist, as
  the source does without a check.
- Case mapping is ASCII only, for `Character.toUpperCase` and
  `equals("include", ignoreCase = true)`. (The id pattern's
  `CASE_INSENSITIVE` without `UNICODE_CASE` is ASCII-only in Java, so the
  model is exact there.)
- Logging and `printStackTrace` (`Utils.kt:36, 98, 153-154`) are not
  modelled.
- The `IllegalArgumentException` handler (`Utils.kt:152-155`) catches
  nothing `Entry` throws, so it has no counterpart.
- EntryModel.Entry.constructor: requires that the variable name can be
  derived. The source throws from `generateVariableName` instead. The
  visitor (`AddIdEntry`) checks this first and fails the whole walk where
  the source's exception would propagate.
- Utils.GetEntriesFromLayout: includes nest at most `fuel` levels deep, and
  deeper nesting ends the walk with `IncludeTooDeep`. The source has no
  such bound and no cycle guard, and nothing here claims that it terminates
  on circular includes.
- EntryModel.Entry.GenerateVariableName: the `chars` array of the source is
  a sequence, and the in-place update of its first character is a sequence
  update.
- `toString`, `ui/ContentPanel.kt` (Swing widgets copying edits back into
  `used` and `variableName`) and `ViewHolderGenerateAction.kt` (action
  wiring and code writing) are not part of this model.
