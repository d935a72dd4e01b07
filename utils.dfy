/**
 * util/Utils.kt: telling whether the caret sits on an `R.layout.<name>`
 * reference, resolving a layout file by name through a three-step scope
 * fallback, and walking a layout's tags (and the layouts it includes) to
 * collect one Entry per id-bearing tag.
 *
 * The IDE is abstract here: the file-name index, the module lookup, the PSI
 * tree behind the caret and the parsed XML of each layout file are inputs.
 */
module Utils {
  import opened Wrappers
  import opened KotlinText
  import opened EntryModel

  // ===========================================================================
  // getLayoutName: `@type/name` to `name`

  /**
   * The name part of a resource reference: None unless the text is present,
   * starts with `@` and contains `/`, and unless exactly two `/`-parts remain
   * once trailing empty parts are dropped. The resource type is not checked.
   */
  function GetLayoutName(layout: Option<string>): (r: Option<string>)
    ensures r.Some? ==> layout.Some? && StartsWith(layout.value, "@") && '/' in layout.value
    ensures r.Some? ==> r.value != "" && '/' !in r.value
  {
    if layout.None? || !StartsWith(layout.value, "@") || '/' !in layout.value then None
    else
      var parts := Tokens(layout.value, '/');
      if |parts| != 2 then None else Some(parts[1])
  }

  /** `@<type>/<name>`, with any number of trailing `/`, yields `<name>`; so `@drawable/x` yields `x`. */
  lemma LayoutNameOfReference(kind: string, name: string, trailing: nat)
    requires StartsWith(kind, "@") && '/' !in kind
    requires name != "" && '/' !in name
    ensures GetLayoutName(Some(kind + "/" + name + Repeat('/', trailing))) == Some(name)
  {
    var layout := kind + "/" + name + Repeat('/', trailing);
    TokensOfJoin([kind, name], trailing, '/');
    assert Join([kind, name], '/') == kind + "/" + name by {
      assert [kind, name][1..] == [name];
    }
    assert layout[0] == kind[0];
    assert layout[|kind|] == '/';
  }

  /** Conversely, every name it yields comes from such a reference. */
  lemma LayoutNameShape(layout: string) returns (kind: string, trailing: nat)
    requires GetLayoutName(Some(layout)).Some?
    ensures StartsWith(kind, "@") && '/' !in kind
    ensures layout == kind + "/" + GetLayoutName(Some(layout)).value + Repeat('/', trailing)
  {
    var parts := Tokens(layout, '/');
    trailing := TokensDecompose(layout, '/');
    kind := parts[0];
    assert Join(parts, '/') == kind + "/" + parts[1] by {
      assert parts[1..] == [parts[1]];
    }
    assert layout[0] == kind[0];
  }

  /** Three or more parts (`@layout/a/b`) are not a layout name. */
  lemma NestedReferenceIsNoLayoutName(kind: string, dir: string, name: string, trailing: nat)
    requires StartsWith(kind, "@") && '/' !in kind
    requires '/' !in dir && name != "" && '/' !in name
    ensures GetLayoutName(Some(kind + "/" + dir + "/" + name + Repeat('/', trailing))) == None
  {
    var layout := kind + "/" + dir + "/" + name + Repeat('/', trailing);
    TokensOfJoin([kind, dir, name], trailing, '/');
    assert Join([dir, name], '/') == dir + "/" + name by {
      assert [dir, name][1..] == [name];
    }
    assert Join([kind, dir, name], '/') == kind + "/" + (dir + "/" + name) by {
      assert [kind, dir, name][1..] == [dir, name];
    }
    assert layout == Join([kind, dir, name], '/') + Repeat('/', trailing);
    assert layout[0] == kind[0];
    assert layout[|kind|] == '/';
  }

  // ===========================================================================
  // resolveLayoutResourceFile: the scope fallback

  /** The search scopes of FilenameIndex the resolver uses. */
  datatype Scope<M> =
    | ModuleScope(m: M)               // moduleWithDependenciesScope
    | ModuleWithLibrariesScope(m: M)  // getModuleWithDependenciesAndLibrariesScope(false)
    | EverythingScope                 // EverythingGlobalScope(project)

  /** The scopes in the order they are tried: the module ones only when the element has a module. */
  function SearchOrder<M>(owner: Option<M>): (scopes: seq<Scope<M>>)
    ensures scopes != [] && scopes[|scopes| - 1] == EverythingScope
    ensures owner.None? ==> scopes == [EverythingScope]
    ensures owner.Some? ==> |scopes| == 3 && scopes[..2] == [ModuleScope(owner.value), ModuleWithLibrariesScope(owner.value)]
  {
    match owner
    case None => [EverythingScope]
    case Some(m) => [ModuleScope(m), ModuleWithLibrariesScope(m), EverythingScope]
  }

  /**
   * The first file of the first scope that has any; None exactly when every
   * scope is empty.
   */
  function FirstHit<M, F>(index: (Scope<M>, string) -> seq<F>, scopes: seq<Scope<M>>, name: string): (r: Option<F>)
    ensures r.None? <==> forall k :: 0 <= k < |scopes| ==> index(scopes[k], name) == []
    ensures r.Some? ==> exists k :: 0 <= k < |scopes| && index(scopes[k], name) != [] &&
                                    r.value == index(scopes[k], name)[0] &&
                                    forall l :: 0 <= l < k ==> index(scopes[l], name) == []
    decreases |scopes|
  {
    if scopes == [] then None
    else if index(scopes[0], name) != [] then Some(index(scopes[0], name)[0])
    else
      var r := FirstHit(index, scopes[1..], name);
      assert forall k :: 1 <= k < |scopes| ==> scopes[k] == scopes[1..][k - 1];
      r
  }

  /**
   * The resolver: the module scope without libraries first, the one with
   * libraries only when that found nothing, the whole project only when both
   * found nothing or there is no module; the first file found, or None.
   * `consulted` lists the scopes queried, in order.
   */
  method ResolveLayoutResourceFile<M, F>(index: (Scope<M>, string) -> seq<F>, owner: Option<M>, name: string)
    returns (file: Option<F>, ghost consulted: seq<Scope<M>>)
    ensures file == FirstHit(index, SearchOrder(owner), name)
    ensures consulted != [] && consulted <= SearchOrder(owner)
    ensures forall k :: 0 <= k < |consulted| - 1 ==> index(consulted[k], name) == []
    ensures file.Some? ==> index(consulted[|consulted| - 1], name) != [] &&
                           file.value == index(consulted[|consulted| - 1], name)[0]
    ensures file.None? ==> consulted == SearchOrder(owner)
  {
    var files: seq<F> := [];
    consulted := [];
    if owner.Some? {
      files := index(ModuleScope(owner.value), name);
      consulted := [ModuleScope(owner.value)];
      if |files| == 0 {
        files := index(ModuleWithLibrariesScope(owner.value), name);
        consulted := consulted + [ModuleWithLibrariesScope(owner.value)];
      }
    }
    if |files| == 0 {
      files := index(EverythingScope, name);
      consulted := consulted + [EverythingScope];
      if |files| == 0 {
        return None, consulted;
      }
    }
    return Some(files[0]), consulted;
  }

  /** With a module whose own scope has the file, neither libraries nor the project decide. */
  lemma ModuleScopeFirst<M, F>(index: (Scope<M>, string) -> seq<F>, m: M, name: string)
    requires index(ModuleScope(m), name) != []
    ensures FirstHit(index, SearchOrder(Some(m)), name) == Some(index(ModuleScope(m), name)[0])
  {
  }

  // ===========================================================================
  // isLayoutElement / isValidElement / getLayoutFileFromCaret

  /**
   * The PSI of a source file as far as the caret logic sees it: the element
   * at an offset (None where there is none, as at offset -1), whether an
   * element is a leaf, its parent, its first child, its text and its module.
   */
  datatype SourceFile<!E, M> = SourceFile(
    elementAt: int -> Option<E>,
    isLeaf: E -> bool,
    parent: E -> E,
    firstChild: E -> Option<E>,
    text: E -> string,
    moduleOf: E -> Option<M>)

  /** The element the layout reference hangs on: two levels up for a leaf, one level up otherwise. */
  function Holder<E, M>(src: SourceFile<E, M>, e: E): E
  {
    if src.isLeaf(e) then src.parent(src.parent(e)) else src.parent(e)
  }

  /** An element whose holder's first child reads `R.layout`: the `name` of `R.layout.name`. */
  predicate IsLayoutElement<E, M>(src: SourceFile<E, M>, element: Option<E>)
  {
    match element
    case None => false
    case Some(e) =>
      match src.firstChild(Holder(src, e))
      case None => false
      case Some(layout) => src.text(layout) == "R.layout"
  }

  predicate IsValidElement<E, M>(src: SourceFile<E, M>, offset: int)
  {
    IsLayoutElement(src, src.elementAt(offset)) || IsLayoutElement(src, src.elementAt(offset - 1))
  }

  /**
   * The element getLayoutFileFromCaret resolves: the one at the caret when it
   * qualifies, else the one just before it when that does, else none.
   */
  function CaretElement<E, M>(src: SourceFile<E, M>, offset: int): (r: Option<E>)
    ensures r.Some? <==> IsValidElement(src, offset)
    ensures r.Some? ==> IsLayoutElement(src, r)
    ensures IsLayoutElement(src, src.elementAt(offset)) ==> r == src.elementAt(offset)
    ensures !IsLayoutElement(src, src.elementAt(offset)) && r.Some? ==> r == src.elementAt(offset - 1)
  {
    if IsLayoutElement(src, src.elementAt(offset)) then src.elementAt(offset)
    else if IsLayoutElement(src, src.elementAt(offset - 1)) then src.elementAt(offset - 1)
    else None
  }

  /**
   * The layout file behind the caret: `<text>.xml` of the chosen element,
   * resolved from that element's module; None when neither candidate is a
   * layout element, so a file is only ever found when IsValidElement holds.
   */
  method GetLayoutFileFromCaret<E, M, F>(src: SourceFile<E, M>, index: (Scope<M>, string) -> seq<F>, offset: int)
    returns (file: Option<F>)
    ensures file.Some? ==> IsValidElement(src, offset)
    ensures file == match CaretElement(src, offset)
                    case None => None
                    case Some(e) => FirstHit(index, SearchOrder(src.moduleOf(e)), src.text(e) + ".xml")
  {
    ghost var consulted;
    var candidateA := src.elementAt(offset);
    var candidateB := src.elementAt(offset - 1);
    if IsLayoutElement(src, candidateA) {
      var e := candidateA.value;
      file, consulted := ResolveLayoutResourceFile(index, src.moduleOf(e), src.text(e) + ".xml");
    } else if IsLayoutElement(src, candidateB) {
      var e := candidateB.value;
      file, consulted := ResolveLayoutResourceFile(index, src.moduleOf(e), src.text(e) + ".xml");
    } else {
      file := None;
    }
  }

  // ===========================================================================
  // getEntriesFromLayout: the specification of the walk

  /** An XML tag: its name, its attributes (present but possibly without a value) and its child tags in document order. */
  datatype Tag = Tag(name: string, attributes: map<string, Option<string>>, children: seq<Tag>)

  /** The layouts of a project: the module of each file, the file-name index and the top-level tags of each file. */
  datatype Layouts<!M, !F> = Layouts(
    moduleOf: F -> Option<M>,
    index: (Scope<M>, string) -> seq<F>,
    rootTags: F -> seq<Tag>)

  /** Why a walk yields no list: Entry throws for this raw id, or includes nest deeper than the bound. */
  datatype WalkError = VariableNameCrash(rawId: string) | IncludeTooDeep

  /** Sequencing two steps of the walk: the first failure wins, otherwise both lists in order. */
  function Then<T>(a: Result<seq<T>, WalkError>, b: Result<seq<T>, WalkError>): Result<seq<T>, WalkError>
  {
    if a.Failure? then a else if b.Failure? then b else Success(a.value + b.value)
  }

  /**
   * The file an include tag stands for: the tag is named `include` in any
   * letter case, has a `layout` attribute that names a layout, and
   * `<name>.xml` resolves from the module of the file being walked.
   */
  function IncludedFile<M, F>(p: Layouts<M, F>, current: F, t: Tag): Option<F>
  {
    if EqualsIgnoreCaseAscii(t.name, "include") && "layout" in t.attributes then
      match GetLayoutName(t.attributes["layout"])
      case None => None
      case Some(n) => FirstHit(p.index, SearchOrder(p.moduleOf(current)), n + ".xml")
    else None
  }

  /** The class name and raw id of a tag with an `android:id` value: the `class` value if it has one, else the tag name. */
  function IdAttributes(t: Tag): Option<(string, string)>
  {
    if "android:id" in t.attributes && t.attributes["android:id"].Some? then
      var name := if "class" in t.attributes && t.attributes["class"].Some? then t.attributes["class"].value else t.name;
      Some((name, t.attributes["android:id"].value))
    else None
  }

  /** What the id check of one tag appends: nothing without an id, one Entry with one, a failure where Entry throws. */
  function IdEntry(t: Tag): Result<seq<EntryView>, WalkError>
  {
    match IdAttributes(t)
    case None => Success([])
    case Some((name, raw)) =>
      match InitialView(name, raw)
      case None => Failure(VariableNameCrash(raw))
      case Some(v) => Success([v])
  }

  /** The entries of a whole file, with at most `fuel` levels of nested includes. */
  function ExtractFile<M, F>(p: Layouts<M, F>, f: F, fuel: nat): Result<seq<EntryView>, WalkError>
    decreases fuel
  {
    ExtractTags(p, f, p.rootTags(f), fuel)
  }

  /** The entries of sibling tags, in document order. */
  function ExtractTags<M, F>(p: Layouts<M, F>, current: F, ts: seq<Tag>, fuel: nat): Result<seq<EntryView>, WalkError>
    decreases fuel, ts
  {
    if ts == [] then Success([])
    else Then(ExtractTags(p, current, ts[..|ts| - 1], fuel), ExtractTag(p, current, ts[|ts| - 1], fuel))
  }

  /** The entries of one tag: its children's first (`super.visitElement`), then its own. */
  function ExtractTag<M, F>(p: Layouts<M, F>, current: F, t: Tag, fuel: nat): Result<seq<EntryView>, WalkError>
    decreases fuel, t
  {
    Then(ExtractTags(p, current, t.children, fuel), OwnEntries(p, current, t, fuel))
  }

  /** A resolved include contributes the included file and nothing of its own; any other tag its id entry. */
  function OwnEntries<M, F>(p: Layouts<M, F>, current: F, t: Tag, fuel: nat): Result<seq<EntryView>, WalkError>
    decreases fuel, t, 0
  {
    match IncludedFile(p, current, t)
    case Some(f) => if fuel == 0 then Failure(IncludeTooDeep) else ExtractFile(p, f, fuel - 1)
    case None => IdEntry(t)
  }

  // ===========================================================================
  // Reference definitions: post-order and include expansion

  /** Every tag of a forest, each after all of its descendants, siblings in document order. */
  function PostOrder(ts: seq<Tag>): seq<Tag>
    decreases ts
  {
    if ts == [] then []
    else
      var n := |ts| - 1;
      PostOrder(ts[..n]) + PostOrder(ts[n].children) + [ts[n]]
  }

  /** The id entries of a flat list of tags, in list order. */
  function IdEntries(tags: seq<Tag>): Result<seq<EntryView>, WalkError>
    decreases |tags|
  {
    if tags == [] then Success([])
    else Then(IdEntries(tags[..|tags| - 1]), IdEntry(tags[|tags| - 1]))
  }

  /** The tags of a file in walk order, every resolved include replaced by the tags of the file it names. */
  function ExpandFile<M, F>(p: Layouts<M, F>, f: F, fuel: nat): Result<seq<Tag>, WalkError>
    decreases fuel
  {
    ExpandTags(p, f, p.rootTags(f), fuel)
  }

  function ExpandTags<M, F>(p: Layouts<M, F>, current: F, ts: seq<Tag>, fuel: nat): Result<seq<Tag>, WalkError>
    decreases fuel, ts
  {
    if ts == [] then Success([])
    else Then(ExpandTags(p, current, ts[..|ts| - 1], fuel), ExpandTag(p, current, ts[|ts| - 1], fuel))
  }

  function ExpandTag<M, F>(p: Layouts<M, F>, current: F, t: Tag, fuel: nat): Result<seq<Tag>, WalkError>
    decreases fuel, t
  {
    Then(ExpandTags(p, current, t.children, fuel), ExpandOwn(p, current, t, fuel))
  }

  function ExpandOwn<M, F>(p: Layouts<M, F>, current: F, t: Tag, fuel: nat): Result<seq<Tag>, WalkError>
    decreases fuel, t, 0
  {
    match IncludedFile(p, current, t)
    case Some(f) => if fuel == 0 then Failure(IncludeTooDeep) else ExpandFile(p, f, fuel - 1)
    case None => Success([t])
  }

  /** The tags of a list that carry an `android:id` value, in list order. */
  function IdTags(tags: seq<Tag>): seq<Tag>
    decreases |tags|
  {
    if tags == [] then []
    else
      var n := |tags| - 1;
      IdTags(tags[..n]) + (if IdAttributes(tags[n]).Some? then [tags[n]] else [])
  }

  /** The record the constructor builds for an id-bearing tag; None without an id or where Entry throws. */
  function IdView(t: Tag): Option<EntryView>
  {
    match IdAttributes(t)
    case None => None
    case Some((name, raw)) => InitialView(name, raw)
  }

  predicate NoIncludes<M, F>(p: Layouts<M, F>, current: F, tags: seq<Tag>)
  {
    forall t :: t in tags ==> IncludedFile(p, current, t).None?
  }

  // ===========================================================================
  // Properties of the walk

  lemma ThenAssociative<T>(a: Result<seq<T>, WalkError>, b: Result<seq<T>, WalkError>, c: Result<seq<T>, WalkError>)
    ensures Then(Then(a, b), c) == Then(a, Then(b, c))
  {
    if a.Success? && b.Success? && c.Success? {
      assert (a.value + b.value) + c.value == a.value + (b.value + c.value);
    }
  }

  lemma {:induction false} IdEntriesAppend(xs: seq<Tag>, ys: seq<Tag>)
    ensures IdEntries(xs + ys) == Then(IdEntries(xs), IdEntries(ys))
    decreases |ys|
  {
    if ys == [] {
      assert xs + ys == xs;
      if IdEntries(xs).Success? {
        assert IdEntries(xs).value + [] == IdEntries(xs).value;
      }
    } else {
      var n := |ys| - 1;
      assert (xs + ys)[..|xs + ys| - 1] == xs + ys[..n];
      IdEntriesAppend(xs, ys[..n]);
      ThenAssociative(IdEntries(xs), IdEntries(ys[..n]), IdEntry(ys[n]));
    }
  }

  lemma IdEntriesSingle(t: Tag)
    ensures IdEntries([t]) == IdEntry(t)
  {
    assert [t][..0] == [];
    if IdEntry(t).Success? {
      assert [] + IdEntry(t).value == IdEntry(t).value;
    }
  }

  /**
   * The walk is the id check applied, in order, to the expansion: wherever
   * the expansion exists the walk yields the id entries of its tags, and
   * where the expansion fails the walk fails too.
   */
  lemma {:induction false} WalkFollowsExpansion<M, F>(p: Layouts<M, F>, current: F, ts: seq<Tag>, fuel: nat)
    ensures ExpandTags(p, current, ts, fuel).Success? ==>
            ExtractTags(p, current, ts, fuel) == IdEntries(ExpandTags(p, current, ts, fuel).value)
    ensures ExpandTags(p, current, ts, fuel).Failure? ==> ExtractTags(p, current, ts, fuel).Failure?
    decreases fuel, ts
  {
    if ts != [] {
      var n := |ts| - 1;
      WalkFollowsExpansion(p, current, ts[..n], fuel);
      TagFollowsExpansion(p, current, ts[n], fuel);
      var a, b := ExpandTags(p, current, ts[..n], fuel), ExpandTag(p, current, ts[n], fuel);
      if a.Success? && b.Success? {
        IdEntriesAppend(a.value, b.value);
      }
    }
  }

  lemma {:induction false} TagFollowsExpansion<M, F>(p: Layouts<M, F>, current: F, t: Tag, fuel: nat)
    ensures ExpandTag(p, current, t, fuel).Success? ==>
            ExtractTag(p, current, t, fuel) == IdEntries(ExpandTag(p, current, t, fuel).value)
    ensures ExpandTag(p, current, t, fuel).Failure? ==> ExtractTag(p, current, t, fuel).Failure?
    decreases fuel, t
  {
    WalkFollowsExpansion(p, current, t.children, fuel);
    OwnFollowsExpansion(p, current, t, fuel);
    var a, b := ExpandTags(p, current, t.children, fuel), ExpandOwn(p, current, t, fuel);
    if a.Success? && b.Success? {
      IdEntriesAppend(a.value, b.value);
    }
  }

  /** The three cases of a tag's own part, for the walk and for the expansion alike. */
  lemma OwnCases<M, F>(p: Layouts<M, F>, current: F, t: Tag, fuel: nat)
    ensures var inc := IncludedFile(p, current, t);
      && (inc.Some? && fuel > 0 ==>
            OwnEntries(p, current, t, fuel) == ExtractFile(p, inc.value, fuel - 1) &&
            ExpandOwn(p, current, t, fuel) == ExpandFile(p, inc.value, fuel - 1))
      && (inc.Some? && fuel == 0 ==>
            OwnEntries(p, current, t, fuel) == Failure(IncludeTooDeep) && ExpandOwn(p, current, t, fuel) == Failure(IncludeTooDeep))
      && (inc.None? ==> OwnEntries(p, current, t, fuel) == IdEntry(t) && ExpandOwn(p, current, t, fuel) == Success([t]))
  {
  }

  lemma {:induction false} OwnFollowsExpansion<M, F>(p: Layouts<M, F>, current: F, t: Tag, fuel: nat)
    ensures ExpandOwn(p, current, t, fuel).Success? ==>
            OwnEntries(p, current, t, fuel) == IdEntries(ExpandOwn(p, current, t, fuel).value)
    ensures ExpandOwn(p, current, t, fuel).Failure? ==> OwnEntries(p, current, t, fuel).Failure?
    decreases fuel, t, 0
  {
    OwnCases(p, current, t, fuel);
    var inc := IncludedFile(p, current, t);
    if inc.Some? {
      if fuel > 0 {
        FileFollowsExpansion(p, inc.value, fuel - 1);
      }
    } else {
      IdEntriesSingle(t);
    }
  }

  lemma {:induction false} FileFollowsExpansion<M, F>(p: Layouts<M, F>, f: F, fuel: nat)
    ensures ExpandFile(p, f, fuel).Success? ==> ExtractFile(p, f, fuel) == IdEntries(ExpandFile(p, f, fuel).value)
    ensures ExpandFile(p, f, fuel).Failure? ==> ExtractFile(p, f, fuel).Failure?
    decreases fuel
  {
    WalkFollowsExpansion(p, f, p.rootTags(f), fuel);
  }

  /** Without includes that resolve, the expansion is exactly the post-order listing of the tags. */
  lemma {:induction false} IncludeFreeExpansion<M, F>(p: Layouts<M, F>, current: F, ts: seq<Tag>, fuel: nat)
    requires NoIncludes(p, current, PostOrder(ts))
    ensures ExpandTags(p, current, ts, fuel) == Success(PostOrder(ts))
    decreases ts
  {
    if ts != [] {
      var n := |ts| - 1;
      var t := ts[n];
      var left, below := PostOrder(ts[..n]), PostOrder(t.children);
      assert PostOrder(ts) == left + below + [t];
      assert t in PostOrder(ts);
      IncludeFreeExpansion(p, current, ts[..n], fuel);
      IncludeFreeExpansion(p, current, t.children, fuel);
      assert ExpandTag(p, current, t, fuel) == Success(below + [t]);
      assert left + (below + [t]) == PostOrder(ts);
    }
  }

  /**
   * Post-order: in a layout without resolved includes, the entries are those
   * of the id-bearing tags, every tag after its children and siblings in
   * document order.
   */
  lemma IncludeFreeWalkIsPostOrder<M, F>(p: Layouts<M, F>, current: F, ts: seq<Tag>, fuel: nat)
    requires NoIncludes(p, current, PostOrder(ts))
    ensures ExtractTags(p, current, ts, fuel) == IdEntries(PostOrder(ts))
  {
    IncludeFreeExpansion(p, current, ts, fuel);
    WalkFollowsExpansion(p, current, ts, fuel);
  }

  /**
   * The include bound only cuts the walk off: a walk that does not run out
   * of fuel gives the same result with any larger bound.
   */
  lemma {:induction false} MoreFuelSameWalk<M, F>(p: Layouts<M, F>, current: F, ts: seq<Tag>, fuel: nat, more: nat)
    requires ExtractTags(p, current, ts, fuel) != Failure(IncludeTooDeep)
    ensures ExtractTags(p, current, ts, fuel + more) == ExtractTags(p, current, ts, fuel)
    decreases fuel, ts
  {
    if ts != [] {
      var n := |ts| - 1;
      var a := ExtractTags(p, current, ts[..n], fuel);
      MoreFuelSameWalk(p, current, ts[..n], fuel, more);
      if a.Success? {
        MoreFuelSameTag(p, current, ts[n], fuel, more);
      }
    }
  }

  lemma {:induction false} MoreFuelSameTag<M, F>(p: Layouts<M, F>, current: F, t: Tag, fuel: nat, more: nat)
    requires ExtractTag(p, current, t, fuel) != Failure(IncludeTooDeep)
    ensures ExtractTag(p, current, t, fuel + more) == ExtractTag(p, current, t, fuel)
    decreases fuel, t
  {
    var a := ExtractTags(p, current, t.children, fuel);
    MoreFuelSameWalk(p, current, t.children, fuel, more);
    if a.Success? {
      MoreFuelSameOwn(p, current, t, fuel, more);
    }
  }

  lemma {:induction false} MoreFuelSameOwn<M, F>(p: Layouts<M, F>, current: F, t: Tag, fuel: nat, more: nat)
    requires OwnEntries(p, current, t, fuel) != Failure(IncludeTooDeep)
    ensures OwnEntries(p, current, t, fuel + more) == OwnEntries(p, current, t, fuel)
    decreases fuel, t, 0
  {
    match IncludedFile(p, current, t)
    case Some(f) =>
      MoreFuelSameFile(p, f, fuel - 1, more);
      assert fuel + more - 1 == fuel - 1 + more;
    case None =>
  }

  lemma {:induction false} MoreFuelSameFile<M, F>(p: Layouts<M, F>, f: F, fuel: nat, more: nat)
    requires ExtractFile(p, f, fuel) != Failure(IncludeTooDeep)
    ensures ExtractFile(p, f, fuel + more) == ExtractFile(p, f, fuel)
    decreases fuel
  {
    MoreFuelSameWalk(p, f, p.rootTags(f), fuel, more);
  }

  /** The walk of a concatenation of siblings is the walk of the first part followed by that of the second. */
  lemma {:induction false} ExtractTagsAppend<M, F>(p: Layouts<M, F>, current: F, xs: seq<Tag>, ys: seq<Tag>, fuel: nat)
    ensures ExtractTags(p, current, xs + ys, fuel) == Then(ExtractTags(p, current, xs, fuel), ExtractTags(p, current, ys, fuel))
    decreases |ys|
  {
    if ys == [] {
      assert xs + ys == xs;
      var a := ExtractTags(p, current, xs, fuel);
      if a.Success? {
        assert a.value + [] == a.value;
      }
    } else {
      var n := |ys| - 1;
      assert (xs + ys)[..|xs + ys| - 1] == xs + ys[..n];
      assert (xs + ys)[|xs + ys| - 1] == ys[n];
      ExtractTagsAppend(p, current, xs, ys[..n], fuel);
      ThenAssociative(ExtractTags(p, current, xs, fuel), ExtractTags(p, current, ys[..n], fuel), ExtractTag(p, current, ys[n], fuel));
    }
  }

  lemma ExtractTagsSingle<M, F>(p: Layouts<M, F>, current: F, t: Tag, fuel: nat)
    ensures ExtractTags(p, current, [t], fuel) == ExtractTag(p, current, t, fuel)
  {
    assert [t][..0] == [];
    var r := ExtractTag(p, current, t, fuel);
    if r.Success? {
      assert [] + r.value == r.value;
    }
  }

  /**
   * A resolved include among its siblings: the walk yields the entries of
   * the siblings before it, then of its children, then all entries of the
   * included file walked against that file, then those of the siblings
   * after it; the include's own id is ignored.
   */
  lemma IncludeSplicesFile<M, F>(p: Layouts<M, F>, current: F, xs: seq<Tag>, t: Tag, ys: seq<Tag>, fuel: nat)
    requires IncludedFile(p, current, t).Some? && fuel > 0
    ensures var f := IncludedFile(p, current, t).value;
      ExtractTags(p, current, xs + [t] + ys, fuel) ==
      Then(Then(Then(ExtractTags(p, current, xs, fuel), ExtractTags(p, current, t.children, fuel)),
                ExtractTags(p, f, p.rootTags(f), fuel - 1)),
           ExtractTags(p, current, ys, fuel))
  {
    var f := IncludedFile(p, current, t).value;
    var a, c, o := ExtractTags(p, current, xs, fuel), ExtractTags(p, current, t.children, fuel), ExtractFile(p, f, fuel - 1);
    assert OwnEntries(p, current, t, fuel) == o;
    assert ExtractTag(p, current, t, fuel) == Then(c, o);
    ExtractTagsAppend(p, current, xs + [t], ys, fuel);
    ExtractTagsAppend(p, current, xs, [t], fuel);
    ExtractTagsSingle(p, current, t, fuel);
    ThenAssociative(a, c, o);
  }

  /** The list is not deduplicated: the same tag twice yields its entries twice. */
  lemma DuplicatesKept<M, F>(p: Layouts<M, F>, current: F, t: Tag, fuel: nat)
    requires ExtractTag(p, current, t, fuel).Success?
    ensures var es := ExtractTag(p, current, t, fuel).value;
      ExtractTags(p, current, [t, t], fuel) == Success(es + es)
  {
    var es := ExtractTag(p, current, t, fuel).value;
    assert [t, t][..1] == [t] && [t][..0] == [];
    assert ExtractTags(p, current, [t], fuel) == Success([] + es);
    assert [] + es == es;
  }

  /**
   * One entry per id-bearing tag and none for the others: the id check of a
   * list succeeds exactly when no id-bearing tag makes Entry throw, and then
   * its k-th entry is the record of the k-th id-bearing tag.
   */
  lemma {:induction false} OneEntryPerIdTag(tags: seq<Tag>)
    ensures IdEntries(tags).Success? <==> forall t :: t in IdTags(tags) ==> IdView(t).Some?
    ensures IdEntries(tags).Success? ==>
            |IdEntries(tags).value| == |IdTags(tags)| &&
            forall k :: 0 <= k < |IdTags(tags)| ==> IdView(IdTags(tags)[k]) == Some(IdEntries(tags).value[k])
    decreases |tags|
  {
    if tags != [] {
      var n := |tags| - 1;
      var t := tags[n];
      OneEntryPerIdTag(tags[..n]);
      var init, ids := IdEntries(tags[..n]), IdTags(tags[..n]);
      if IdAttributes(t).None? {
        assert IdTags(tags) == ids;
        if init.Success? {
          assert init.value + [] == init.value;
        }
      } else {
        assert IdTags(tags) == ids + [t];
        assert forall x :: x in ids + [t] <==> x in ids || x == t;
        if init.Success? && IdView(t).Some? {
          assert IdEntries(tags).value == init.value + [IdView(t).value];
        }
      }
    }
  }

  // ===========================================================================
  // getEntriesFromLayout: the visitor

  /**
   * The shared `ArrayList<Entry>` every level of the walk appends to, with
   * the field values of its entries at the time they were appended.
   */
  class EntryList {
    var elems: seq<Entry>
    ghost var views: seq<EntryView>

    /** Each entry still holds the values it was appended with. */
    ghost predicate Valid()
      reads this, elems
    {
      |views| == |elems| && forall k :: 0 <= k < |elems| ==> elems[k].View() == views[k]
    }

    constructor ()
      ensures elems == [] && views == [] && Valid()
    {
      elems := [];
      views := [];
    }

    method Add(e: Entry)
      requires Valid()
      modifies this
      ensures elems == old(elems) + [e] && views == old(views) + [e.View()]
      ensures Valid()
    {
      elems := elems + [e];
      views := views + [e.View()];
    }
  }

  /**
   * `getEntriesFromLayout(file)`: a new list filled by the walk; `ok` is false
   * where the source throws (or includes nest deeper than `fuel`).
   */
  method GetEntriesFromLayout<M, F>(p: Layouts<M, F>, file: F, fuel: nat) returns (ok: bool, entries: EntryList)
    ensures fresh(entries) && entries.Valid()
    ensures ok <==> ExtractFile(p, file, fuel).Success?
    ensures ok ==> entries.views == ExtractFile(p, file, fuel).value
  {
    entries := new EntryList();
    ok := WalkLayout(p, file, fuel, entries);
  }

  /** `getEntriesFromLayout(layoutFile, entries)`: visits the top-level tags of the file. */
  method WalkLayout<M, F>(p: Layouts<M, F>, file: F, fuel: nat, entries: EntryList) returns (ok: bool)
    requires entries.Valid()
    modifies entries
    ensures entries.Valid() && old(entries.elems) <= entries.elems
    ensures ok <==> ExtractFile(p, file, fuel).Success?
    ensures ok ==> entries.views == old(entries.views) + ExtractFile(p, file, fuel).value
    decreases fuel
  {
    ok := VisitTags(p, file, p.rootTags(file), fuel, entries);
  }

  /** The walk of the first i + 1 siblings extends that of the first i by the walk of `ts[i]`. */
  lemma ExtractTagsSnoc<M, F>(p: Layouts<M, F>, current: F, ts: seq<Tag>, i: nat, fuel: nat)
    requires i < |ts|
    ensures ExtractTags(p, current, ts[..i + 1], fuel) ==
            Then(ExtractTags(p, current, ts[..i], fuel), ExtractTag(p, current, ts[i], fuel))
  {
    assert ts[..i + 1][..i] == ts[..i];
  }

  /** A failure among the first i siblings is a failure of the whole sibling walk. */
  lemma ThenFailsFromPrefix<M, F>(p: Layouts<M, F>, current: F, ts: seq<Tag>, i: nat, fuel: nat)
    requires i <= |ts| && ExtractTags(p, current, ts[..i], fuel).Failure?
    ensures ExtractTags(p, current, ts, fuel).Failure?
    decreases |ts| - i
  {
    if i < |ts| {
      assert ts[..i + 1][..i] == ts[..i];
      ThenFailsFromPrefix(p, current, ts, i + 1, fuel);
    } else {
      assert ts[..i] == ts;
    }
  }

  /** One step of the sibling loop, stated on what the loop has appended so far. */
  lemma SiblingStep<M, F>(p: Layouts<M, F>, current: F, ts: seq<Tag>, i: nat, fuel: nat, start: seq<EntryView>, mid: seq<EntryView>, fin: seq<EntryView>, ok: bool)
    requires i < |ts|
    requires ExtractTags(p, current, ts[..i], fuel).Success?
    requires mid == start + ExtractTags(p, current, ts[..i], fuel).value
    requires ok <==> ExtractTag(p, current, ts[i], fuel).Success?
    requires ok ==> fin == mid + ExtractTag(p, current, ts[i], fuel).value
    ensures ok ==> ExtractTags(p, current, ts[..i + 1], fuel).Success?
    ensures ok ==> fin == start + ExtractTags(p, current, ts[..i + 1], fuel).value
    ensures !ok ==> ExtractTags(p, current, ts, fuel).Failure?
  {
    ExtractTagsSnoc(p, current, ts, i, fuel);
    ThenParts(ExtractTags(p, current, ts[..i], fuel), ExtractTag(p, current, ts[i], fuel), start, mid, fin, true, ok);
    if !ok {
      ThenFailsFromPrefix(p, current, ts, i + 1, fuel);
    }
  }

  /** The children (or top-level tags) visited in order; the first failure stops the walk. */
  method VisitTags<M, F>(p: Layouts<M, F>, current: F, ts: seq<Tag>, fuel: nat, entries: EntryList) returns (ok: bool)
    requires entries.Valid()
    modifies entries
    ensures entries.Valid() && old(entries.elems) <= entries.elems
    ensures ok <==> ExtractTags(p, current, ts, fuel).Success?
    ensures ok ==> entries.views == old(entries.views) + ExtractTags(p, current, ts, fuel).value
    decreases fuel, ts
  {
    ghost var start := entries.views;
    ghost var startElems := entries.elems;
    var i := 0;
    while i < |ts|
      invariant i <= |ts|
      invariant entries.Valid() && startElems <= entries.elems
      invariant ExtractTags(p, current, ts[..i], fuel).Success?
      invariant entries.views == start + ExtractTags(p, current, ts[..i], fuel).value
    {
      ghost var mid := entries.views;
      ok := VisitElement(p, current, ts[i], fuel, entries);
      SiblingStep(p, current, ts, i, fuel, start, mid, entries.views, ok);
      if !ok {
        return;
      }
      i := i + 1;
    }
    assert ts[..i] == ts;
    ok := true;
  }

  /** The children's walk followed by the tag's own part make up the walk of the tag. */
  lemma TagStep<M, F>(p: Layouts<M, F>, current: F, t: Tag, fuel: nat, start: seq<EntryView>, mid: seq<EntryView>, fin: seq<EntryView>, childrenOk: bool, ownOk: bool)
    requires childrenOk <==> ExtractTags(p, current, t.children, fuel).Success?
    requires childrenOk ==> mid == start + ExtractTags(p, current, t.children, fuel).value
    requires ownOk ==> childrenOk && OwnEntries(p, current, t, fuel).Success?
    requires childrenOk && !ownOk ==> OwnEntries(p, current, t, fuel).Failure?
    requires ownOk ==> fin == mid + OwnEntries(p, current, t, fuel).value
    ensures ownOk <==> ExtractTag(p, current, t, fuel).Success?
    ensures ownOk ==> fin == start + ExtractTag(p, current, t, fuel).value
  {
    ThenParts(ExtractTags(p, current, t.children, fuel), OwnEntries(p, current, t, fuel), start, mid, fin, childrenOk, ownOk);
  }

  /** Two steps that each appended their part, the second only after the first succeeded, appended their sequence. */
  lemma ThenParts<T>(a: Result<seq<T>, WalkError>, b: Result<seq<T>, WalkError>, start: seq<T>, mid: seq<T>, fin: seq<T>, aOk: bool, bOk: bool)
    requires aOk <==> a.Success?
    requires aOk ==> mid == start + a.value
    requires bOk ==> aOk && b.Success?
    requires aOk && !bOk ==> b.Failure?
    requires bOk ==> fin == mid + b.value
    ensures bOk <==> Then(a, b).Success?
    ensures bOk ==> fin == start + Then(a, b).value
  {
  }

  /**
   * `visitElement` for a tag: its children first, then an include that
   * resolves splices in the included file, and otherwise a tag with an
   * `android:id` value appends one new Entry.
   */
  method VisitElement<M, F>(p: Layouts<M, F>, current: F, t: Tag, fuel: nat, entries: EntryList) returns (ok: bool)
    requires entries.Valid()
    modifies entries
    ensures entries.Valid() && old(entries.elems) <= entries.elems
    ensures ok <==> ExtractTag(p, current, t, fuel).Success?
    ensures ok ==> entries.views == old(entries.views) + ExtractTag(p, current, t, fuel).value
    decreases fuel, t, 1
  {
    ghost var start := entries.views;
    var childrenOk := VisitTags(p, current, t.children, fuel, entries);
    ghost var mid := entries.views;
    ok := false;
    if childrenOk {
      ok := VisitOwn(p, current, t, fuel, entries);
    }
    TagStep(p, current, t, fuel, start, mid, entries.views, childrenOk, ok);
  }

  /** The body of `visitElement` after `super.visitElement`: follow a resolved include, else record the tag's id. */
  method VisitOwn<M, F>(p: Layouts<M, F>, current: F, t: Tag, fuel: nat, entries: EntryList) returns (ok: bool)
    requires entries.Valid()
    modifies entries
    ensures entries.Valid() && old(entries.elems) <= entries.elems
    ensures ok <==> OwnEntries(p, current, t, fuel).Success?
    ensures ok ==> entries.views == old(entries.views) + OwnEntries(p, current, t, fuel).value
    decreases fuel, t, 0
  {
    if EqualsIgnoreCaseAscii(t.name, "include") && "layout" in t.attributes {
      var newLayoutFileName := GetLayoutName(t.attributes["layout"]);
      if newLayoutFileName.Some? {
        ghost var consulted;
        var included;
        included, consulted := ResolveLayoutResourceFile(p.index, p.moduleOf(current), newLayoutFileName.value + ".xml");
        if included.Some? {
          if fuel == 0 {
            return false;
          }
          ok := WalkLayout(p, included.value, fuel - 1, entries);
          return;
        }
      }
    }
    ok := AddIdEntry(t, entries);
  }

  /** The `android:id` branch of `visitElement`: a tag with an id value becomes one Entry, named by its `class` value if it has one. */
  method AddIdEntry(t: Tag, entries: EntryList) returns (ok: bool)
    requires entries.Valid()
    modifies entries
    ensures entries.Valid() && old(entries.elems) <= entries.elems
    ensures ok <==> IdEntry(t).Success?
    ensures ok ==> entries.views == old(entries.views) + IdEntry(t).value
  {
    ok := true;
    if "android:id" !in t.attributes || t.attributes["android:id"].None? {
      return;
    }
    var value := t.attributes["android:id"].value;
    var name := t.name;
    if "class" in t.attributes && t.attributes["class"].Some? {
      name := t.attributes["class"].value;
    }
    if InitialView(name, value).None? {
      // generateVariableName throws inside the constructor
      return false;
    }
    var e := new Entry(name, value);
    entries.Add(e);
  }
}
