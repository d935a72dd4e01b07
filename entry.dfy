/**
 * One layout tag turned into a bindable record (model/Entry.kt): the id parsed
 * from the raw `android:id` value, the qualified accessor, the short and the
 * qualified class name, a camel-cased variable name and its validity flag.
 */
module EntryModel {
  import opened Wrappers
  import opened KotlinText

  // ===========================================================================
  // The id pattern  @\+?(android:)?id/([^$]+)$  , case-insensitive, find()

  /** Group 2 of a match, and whether group 1 (`android:`) took part. */
  datatype IdMatch = IdMatch(id: string, androidNS: bool)

  /** The text the pattern requires before group 2, for one choice of its two optional parts. */
  function IdPrefix(plus: bool, androidNS: bool): string
  {
    "@" + (if plus then "+" else "") + (if androidNS then "android:" else "") + "id/"
  }

  /**
   * The pattern matches from position i with these choices of the optional
   * parts: the prefix up to ASCII case, then a non-empty rest free of `$` that
   * runs to the end of the input.
   */
  ghost predicate PatternAt(s: string, i: nat, plus: bool, androidNS: bool)
  {
    var p := IdPrefix(plus, androidNS);
    i + |p| < |s| && EqualsIgnoreCaseAscii(s[i..i + |p|], p) && '$' !in s[i + |p|..]
  }

  /**
   * The matcher at one start position. Each optional part is taken when it is
   * there; giving one up never helps, because the character that then has to
   * follow (`a` or `i` after the `@`, `i` after `android:`) is not the one the
   * part began with.
   */
  function MatchIdAt(s: string, i: nat): Option<IdMatch>
  {
    if i >= |s| || s[i] != '@' then None
    else
      var j := if i + 1 < |s| && s[i + 1] == '+' then i + 2 else i + 1;
      var ns := j + 8 <= |s| && EqualsIgnoreCaseAscii(s[j..j + 8], "android:");
      var k := if ns then j + 8 else j;
      if k + 3 < |s| && EqualsIgnoreCaseAscii(s[k..k + 3], "id/") && '$' !in s[k + 3..]
      then Some(IdMatch(s[k + 3..], ns))
      else None
  }

  /** `find()` from position i: the leftmost start at or after i where the pattern matches. */
  function FindFrom(s: string, i: nat): (r: Option<IdMatch>)
    requires i <= |s|
    ensures r.Some? ==> exists j :: i <= j < |s| && MatchIdAt(s, j) == r &&
                                    forall l :: i <= l < j ==> MatchIdAt(s, l).None?
    ensures r.None? ==> forall j :: i <= j < |s| ==> MatchIdAt(s, j).None?
    decreases |s| - i
  {
    if i == |s| then None
    else if MatchIdAt(s, i).Some? then MatchIdAt(s, i)
    else FindFrom(s, i + 1)
  }

  function FindId(s: string): Option<IdMatch>
  {
    FindFrom(s, 0)
  }

  lemma LowerAsciiOfSymbol(c: char, x: char)
    requires !('a' <= x <= 'z') && !('A' <= x <= 'Z')
    requires LowerAscii(c) == x
    ensures c == x
  {
  }

  lemma EqualsIgnoreCaseConcat(a1: string, a2: string, b1: string, b2: string)
    requires EqualsIgnoreCaseAscii(a1, b1) && EqualsIgnoreCaseAscii(a2, b2)
    ensures EqualsIgnoreCaseAscii(a1 + a2, b1 + b2)
  {
    var a, b := a1 + a2, b1 + b2;
    forall i | 0 <= i < |a| ensures LowerAscii(a[i]) == LowerAscii(b[i]) {
      if i >= |a1| {
        assert a[i] == a2[i - |a1|] && b[i] == b2[i - |b1|];
      }
    }
  }

  lemma EqualsIgnoreCaseSlices(s: string, a: nat, b: nat, c: nat, x: string, y: string)
    requires a <= b <= c <= |s|
    requires EqualsIgnoreCaseAscii(s[a..b], x) && EqualsIgnoreCaseAscii(s[b..c], y)
    ensures EqualsIgnoreCaseAscii(s[a..c], x + y)
  {
    EqualsIgnoreCaseConcat(s[a..b], s[b..c], x, y);
    assert s[a..b] + s[b..c] == s[a..c];
  }

  lemma AtSignPrefix(s: string, i: nat, plus: bool)
    requires i < |s| && s[i] == '@'
    requires plus ==> i + 1 < |s| && s[i + 1] == '+'
    ensures var at := if plus then "@+" else "@";
      i + |at| <= |s| && EqualsIgnoreCaseAscii(s[i..i + |at|], at)
  {
    var at := if plus then "@+" else "@";
    assert s[i..i + |at|] == at by {
      if plus { assert s[i..i + 2][1] == '+'; }
    }
  }

  lemma EqualsIgnoreCaseThree(s: string, i: nat, x: string, y: string, z: string)
    requires i + |x| + |y| + |z| <= |s|
    requires EqualsIgnoreCaseAscii(s[i..i + |x|], x)
    requires EqualsIgnoreCaseAscii(s[i + |x|..i + |x| + |y|], y)
    requires EqualsIgnoreCaseAscii(s[i + |x| + |y|..i + |x| + |y| + |z|], z)
    ensures EqualsIgnoreCaseAscii(s[i..i + |x + y + z|], x + y + z)
  {
    EqualsIgnoreCaseSlices(s, i, i + |x|, i + |x| + |y|, x, y);
    EqualsIgnoreCaseSlices(s, i, i + |x| + |y|, i + |x| + |y| + |z|, x + y, z);
  }

  /** The three pieces of the prefix, matched one after the other, make up the whole prefix. */
  lemma PrefixPieces(s: string, i: nat, plus: bool, androidNS: bool)
    requires i < |s| && s[i] == '@'
    requires plus ==> i + 1 < |s| && s[i + 1] == '+'
    requires var j := i + (if plus then 2 else 1);
      && (androidNS ==> j + 8 <= |s| && EqualsIgnoreCaseAscii(s[j..j + 8], "android:"))
      && var k := j + (if androidNS then 8 else 0);
      k + 3 <= |s| && EqualsIgnoreCaseAscii(s[k..k + 3], "id/")
    ensures var p := IdPrefix(plus, androidNS);
      i + |p| <= |s| && EqualsIgnoreCaseAscii(s[i..i + |p|], p)
  {
    var at := if plus then "@+" else "@";
    var nsText := if androidNS then "android:" else "";
    AtSignPrefix(s, i, plus);
    var j := i + |at|;
    if !androidNS {
      assert s[j..j] == nsText;
    }
    EqualsIgnoreCaseThree(s, i, at, nsText, "id/");
    assert IdPrefix(plus, androidNS) == at + nsText + "id/";
  }

  /** Whatever MatchIdAt accepts is a match of the pattern, with group 2 the rest of the input. */
  lemma MatchIdAtSound(s: string, i: nat) returns (plus: bool, androidNS: bool)
    requires MatchIdAt(s, i).Some?
    ensures PatternAt(s, i, plus, androidNS)
    ensures MatchIdAt(s, i) == Some(IdMatch(s[i + |IdPrefix(plus, androidNS)|..], androidNS))
  {
    plus := i + 1 < |s| && s[i + 1] == '+';
    var j := if plus then i + 2 else i + 1;
    androidNS := j + 8 <= |s| && EqualsIgnoreCaseAscii(s[j..j + 8], "android:");
    PrefixPieces(s, i, plus, androidNS);
    assert |IdPrefix(plus, androidNS)| == (j - i) + (if androidNS then 8 else 0) + 3;
  }

  /** A slice equal up to case to `x + y` splits into a slice equal to `x` and one equal to `y`. */
  lemma EqualsIgnoreCaseSplit(s: string, a: nat, b: nat, c: nat, x: string, y: string)
    requires a <= b <= c <= |s| && b - a == |x|
    requires EqualsIgnoreCaseAscii(s[a..c], x + y)
    ensures EqualsIgnoreCaseAscii(s[a..b], x) && EqualsIgnoreCaseAscii(s[b..c], y)
  {
    forall t | 0 <= t < |x| ensures LowerAscii(s[a..b][t]) == LowerAscii(x[t]) {
      assert s[a..b][t] == s[a..c][t] && x[t] == (x + y)[t];
    }
    forall t | 0 <= t < |y| ensures LowerAscii(s[b..c][t]) == LowerAscii(y[t]) {
      assert s[b..c][t] == s[a..c][t + |x|] && y[t] == (x + y)[t + |x|];
    }
  }

  /** Every match of the pattern is found by MatchIdAt, with the same groups. */
  lemma MatchIdAtComplete(s: string, i: nat, plus: bool, androidNS: bool)
    requires PatternAt(s, i, plus, androidNS)
    ensures MatchIdAt(s, i) == Some(IdMatch(s[i + |IdPrefix(plus, androidNS)|..], androidNS))
  {
    var at := if plus then "@+" else "@";
    var nsText := if androidNS then "android:" else "";
    var p := IdPrefix(plus, androidNS);
    assert p == at + nsText + "id/";
    var j := i + |at|;
    var k := j + |nsText|;
    EqualsIgnoreCaseSplit(s, i, k, i + |p|, at + nsText, "id/");
    EqualsIgnoreCaseSplit(s, i, j, k, at, nsText);
    assert LowerAscii(s[i..j][0]) == LowerAscii(at[0]);
    LowerAsciiOfSymbol(s[i], '@');
    // the character after the `@` (and `+`) is `a` or `i` up to case
    assert LowerAscii(s[j]) == (if androidNS then 'a' else 'i') by {
      if androidNS {
        assert s[j..k][0] == s[j] && LowerAscii(s[j..k][0]) == LowerAscii(nsText[0]);
      } else {
        assert s[k..i + |p|][0] == s[j] && LowerAscii(s[k..i + |p|][0]) == LowerAscii("id/"[0]);
      }
    }
    if plus {
      assert LowerAscii(s[i..j][1]) == LowerAscii(at[1]);
      LowerAsciiOfSymbol(s[i + 1], '+');
    }
    assert j == (if i + 1 < |s| && s[i + 1] == '+' then i + 2 else i + 1);
    if !androidNS && j + 8 <= |s| {
      assert LowerAscii(s[j..j + 8][0]) != LowerAscii("android:"[0]);
    }
    assert androidNS == (j + 8 <= |s| && EqualsIgnoreCaseAscii(s[j..j + 8], "android:"));
    assert k + 3 == i + |p| && EqualsIgnoreCaseAscii(s[k..k + 3], "id/");
  }

  /** A parsed id is the whole non-empty, `$`-free rest of the input after the leftmost `id/` that matches. */
  lemma FindIdShape(s: string)
    requires FindId(s).Some?
    ensures var m := FindId(s).value;
      && m.id != "" && '$' !in m.id && |m.id| + 3 < |s| && s[|s| - |m.id|..] == m.id
      && EqualsIgnoreCaseAscii(s[|s| - |m.id| - 3..|s| - |m.id|], "id/")
  {
    var j :| 0 <= j < |s| && MatchIdAt(s, j) == FindId(s);
    MatchShape(s, j);
  }

  /** A match at one position: a non-empty, `$`-free rest that runs to the end, right after `id/`. */
  lemma MatchShape(s: string, j: nat)
    requires MatchIdAt(s, j).Some?
    ensures var id := MatchIdAt(s, j).value.id;
      && id != "" && '$' !in id && |id| + 3 < |s| && s[|s| - |id|..] == id
      && EqualsIgnoreCaseAscii(s[|s| - |id| - 3..|s| - |id|], "id/")
  {
    var plus, ns := MatchIdAtSound(s, j);
    PatternEndsInIdSlash(s, j, plus, ns);
  }

  /** The prefix the pattern matches ends in `id/`. */
  lemma IdPrefixEnds(plus: bool, androidNS: bool)
    ensures var p := IdPrefix(plus, androidNS);
      |p| > 3 && p == p[..|p| - 3] + "id/"
  {
  }

  /** A spelling of the pattern has `id/` just before group 2. */
  lemma PatternEndsInIdSlash(s: string, i: nat, plus: bool, androidNS: bool)
    requires PatternAt(s, i, plus, androidNS)
    ensures var n := i + |IdPrefix(plus, androidNS)|;
      n - 3 >= i && EqualsIgnoreCaseAscii(s[n - 3..n], "id/")
  {
    var p := IdPrefix(plus, androidNS);
    IdPrefixEnds(plus, androidNS);
    EqualsIgnoreCaseSplit(s, i, i + |p| - 3, i + |p|, p[..|p| - 3], "id/");
  }

  /** The namespace is recognised in any letter case. */
  lemma AndroidNamespaceIgnoresCase()
    ensures FindId("@Android:ID/x") == Some(IdMatch("x", true))
  {
    assert MatchIdAt("@Android:ID/x", 0) == Some(IdMatch("x", true)) by {
      var s := "@Android:ID/x";
      assert s[1..9] == "Android:";
      assert EqualsIgnoreCaseAscii(s[1..9], "android:");
      assert s[9..12] == "ID/";
      assert EqualsIgnoreCaseAscii(s[9..12], "id/");
      assert s[12..] == "x";
    }
  }

  /** A value without `@` (or with `$` after `id/`) is not an id: the constructor keeps the defaults. */
  lemma MalformedIdsDoNotMatch()
    ensures FindId("title") == None
    ensures FindId("@+id/a$b") == None
  {
    assert forall j :: 0 <= j < |"title"| ==> "title"[j] != '@';
    var s := "@+id/a$b";
    assert MatchIdAt(s, 0).None? by {
      assert s[4..] == "/a$b";
      assert s[5..] == "a$b";
      assert '$' in s[5..];
    }
    assert forall j :: 1 <= j < |s| ==> s[j] != '@';
  }

  // ===========================================================================
  // The variable name (generateVariableName)

  /** `chars[0] = Character.toUpperCase(chars[0])`, for ASCII letters. */
  function UpperFirst(s: string): string
  {
    if s == [] then s else [UpperAscii(s[0])] + s[1..]
  }

  lemma UpperFirstInPlace(s: string)
    requires s != ""
    ensures s[0 := UpperAscii(s[0])] == UpperFirst(s)
  {
  }

  /**
   * What the loop appends for word number `index`: the last non-empty
   * `.`-component of the word, upper-cased at the front after the first word;
   * None where the source reads index -1 of an empty token array.
   */
  function WordPart(word: string, index: nat): (r: Option<string>)
    ensures r.Some? ==> r.value != "" && '.' !in r.value
  {
    var tokens := Tokens(word, '.');
    if tokens == [] then None
    else
      var last := tokens[|tokens| - 1];
      Some(if index > 0 then UpperFirst(last) else last)
  }

  /** The part of every word, in order. */
  function WordParts(words: seq<string>): seq<Option<string>>
  {
    MapIndexed(words, WordPart)
  }

  lemma WordPartsAt(words: seq<string>, k: nat)
    requires k < |words|
    ensures WordParts(words)[k] == WordPart(words[k], k)
  {
    MapIndexedAt(words, WordPart, k);
  }

  /** The parts concatenated in order; None as soon as one of them is missing. */
  function CamelJoin(parts: seq<Option<string>>): Option<string>
    decreases |parts|
  {
    if parts == [] then Some("")
    else
      var n := |parts| - 1;
      match CamelJoin(parts[..n])
      case None => None
      case Some(prefix) =>
        match parts[n]
        case None => None
        case Some(part) => Some(prefix + part)
  }

  lemma CamelJoinStep(parts: seq<Option<string>>, i: nat, prefix: string, part: string)
    requires i < |parts| && CamelJoin(parts[..i]) == Some(prefix) && parts[i] == Some(part)
    ensures CamelJoin(parts[..i + 1]) == Some(prefix + part)
  {
    assert parts[..i + 1][..i] == parts[..i];
  }

  lemma CamelJoinMissing(parts: seq<Option<string>>, i: nat)
    requires i < |parts| && parts[i].None?
    ensures CamelJoin(parts).None?
  {
    CamelJoinNone(parts);
  }

  /** The variable name generateVariableName builds from an id, None where it throws. */
  function VariableNameOf(id: string): Option<string>
  {
    CamelJoin(WordParts(Tokens(id, '_')))
  }

  /** A word with no character other than `.`, the empty word included. */
  predicate OnlyDots(word: string)
  {
    forall j :: 0 <= j < |word| ==> word[j] == '.'
  }

  lemma WordPartNone(word: string, index: nat)
    ensures WordPart(word, index).None? <==> OnlyDots(word)
  {
    TokensEmpty(word, '.');
  }

  lemma {:induction false} CamelJoinNone(parts: seq<Option<string>>)
    ensures CamelJoin(parts).None? <==> exists k :: 0 <= k < |parts| && parts[k].None?
    decreases |parts|
  {
    if parts != [] {
      var n := |parts| - 1;
      CamelJoinNone(parts[..n]);
      assert forall k :: 0 <= k < n ==> parts[..n][k] == parts[k];
    }
  }

  /**
   * generateVariableName throws exactly when some `_`-separated word (after the
   * trailing empty ones are dropped) has no character other than `.`: a leading
   * `_`, a doubled `__`, or a word of dots.
   */
  lemma VariableNameFails(id: string)
    ensures VariableNameOf(id).None? <==>
            exists k :: 0 <= k < |Tokens(id, '_')| && OnlyDots(Tokens(id, '_')[k])
  {
    var words := Tokens(id, '_');
    var parts := WordParts(words);
    CamelJoinNone(parts);
    forall k | 0 <= k < |words|
      ensures parts[k].None? <==> OnlyDots(words[k])
    {
      WordPartsAt(words, k);
      WordPartNone(words[k], k);
    }
  }

  /**
   * Where the source throws: an id whose `_`-words include one that is empty
   * or made of dots only (a leading `_`, a doubled `__`, a word `..`), after
   * any number of trailing underscores.
   */
  lemma DotWordFails(words: seq<string>, k: nat, trailing: nat)
    requires words != [] && words[|words| - 1] != ""
    requires forall j :: 0 <= j < |words| ==> '_' !in words[j]
    requires k < |words| && OnlyDots(words[k])
    ensures VariableNameOf(Join(words, '_') + Repeat('_', trailing)).None?
  {
    TokensOfJoin(words, trailing, '_');
    VariableNameFails(Join(words, '_') + Repeat('_', trailing));
  }

  lemma UpperAsciiKeeps(c: char, x: char)
    requires !('a' <= x <= 'z') && !('A' <= x <= 'Z')
    ensures UpperAscii(c) == x <==> c == x
  {
  }

  /** Joining parts that avoid a character gives a name that avoids it. */
  lemma {:induction false} CamelJoinAvoids(parts: seq<Option<string>>, c: char)
    requires CamelJoin(parts).Some?
    requires forall k :: 0 <= k < |parts| && parts[k].Some? ==> c !in parts[k].value
    ensures c !in CamelJoin(parts).value
    decreases |parts|
  {
    if parts != [] {
      var n := |parts| - 1;
      CamelJoinAvoids(parts[..n], c);
    }
  }

  lemma WordPartAvoidsUnderscore(word: string, index: nat)
    requires '_' !in word && WordPart(word, index).Some?
    ensures '_' !in WordPart(word, index).value
  {
    var tokens := Tokens(word, '.');
    var last := tokens[|tokens| - 1];
    TokensAvoid(word, '.', '_');
    if index > 0 {
      UpperAsciiKeeps(last[0], '_');
      assert UpperFirst(last) == [UpperAscii(last[0])] + last[1..];
      assert forall c :: c in last[1..] ==> c in last;
    }
  }

  /** A generated variable name never contains `_` or `.`. */
  lemma VariableNameHasNoSeparators(id: string)
    requires VariableNameOf(id).Some?
    ensures '_' !in VariableNameOf(id).value && '.' !in VariableNameOf(id).value
  {
    var words := Tokens(id, '_');
    var parts := WordParts(words);
    forall k | 0 <= k < |parts| && parts[k].Some?
      ensures '_' !in parts[k].value && '.' !in parts[k].value
    {
      WordPartsAt(words, k);
      WordPartAvoidsUnderscore(words[k], k);
    }
    CamelJoinAvoids(parts, '_');
    CamelJoinAvoids(parts, '.');
  }

  /**
   * The camel-case name the source means to build: the first word as it is,
   * every later word with its first letter upper-cased.
   */
  function CamelCase(words: seq<string>): string
    decreases |words|
  {
    if words == [] then ""
    else
      var n := |words| - 1;
      CamelCase(words[..n]) + (if n == 0 then words[0] else UpperFirst(words[n]))
  }

  /**
   * A `_`-word spelled from its last `.`-component: `prefix.` when there is a
   * prefix, then the component, then `dots` trailing dots.
   */
  function DottedWord(prefix: Option<string>, last: string, dots: nat): string
  {
    (if prefix.Some? then prefix.value + "." else "") + last + Repeat('.', dots)
  }

  /** Each word contributes its last non-empty `.`-component, upper-cased at the front after the first word. */
  lemma DottedWordPart(prefix: Option<string>, last: string, dots: nat, index: nat)
    requires last != "" && '.' !in last
    ensures WordPart(DottedWord(prefix, last, dots), index) == Some(if index > 0 then UpperFirst(last) else last)
  {
    var word := DottedWord(prefix, last, dots);
    if prefix.Some? {
      assert word == prefix.value + "." + last + Repeat('.', dots);
      QualifiedClassName(prefix.value, last, dots);
      assert |Tokens(word, '.')| > 1;
    } else {
      assert word == Join([last], '.') + Repeat('.', dots);
      TokensOfJoin([last], dots, '.');
    }
  }

  /** Conversely, every word with a character other than `.` is spelled that way. */
  lemma DottedWordShape(word: string) returns (prefix: Option<string>, last: string, dots: nat)
    requires !OnlyDots(word)
    ensures last != "" && '.' !in last && word == DottedWord(prefix, last, dots)
  {
    TokensEmpty(word, '.');
    var tokens := Tokens(word, '.');
    dots := TokensDecompose(word, '.');
    var m := |tokens| - 1;
    last := tokens[m];
    if m == 0 {
      prefix := None;
      assert tokens == [last];
    } else {
      assert tokens == tokens[..m] + [last];
      JoinSnoc(tokens[..m], last, '.');
      prefix := Some(Join(tokens[..m], '.'));
    }
  }

  /** Words whose parts are the given components are camel-cased from those components. */
  lemma {:induction false} WordsAreCamelCased(words: seq<string>, lasts: seq<string>)
    requires |words| == |lasts|
    requires forall k :: 0 <= k < |words| ==> WordPart(words[k], k) == Some(if k > 0 then UpperFirst(lasts[k]) else lasts[k])
    ensures CamelJoin(WordParts(words)) == Some(CamelCase(lasts))
    decreases |words|
  {
    if words != [] {
      var n := |words| - 1;
      WordsAreCamelCased(words[..n], lasts[..n]);
      WordPartsAt(words, n);
      var parts := WordParts(words);
      assert parts[..n] == WordParts(words[..n]) by {
        forall k | 0 <= k < n ensures parts[k] == WordParts(words[..n])[k] {
          WordPartsAt(words, k);
          WordPartsAt(words[..n], k);
        }
      }
    }
  }

  /**
   * A snake-case id becomes camel case: for `_`-words each spelled from a
   * last `.`-component (then any trailing `_`), the name is the first
   * component as is followed by every later one with its first letter
   * upper-cased; so `a.b_c.d` gives `bD` and `user_name_label` gives
   * `userNameLabel`.
   */
  lemma SnakeCaseBecomesCamelCase(words: seq<string>, prefixes: seq<Option<string>>, lasts: seq<string>, dots: seq<nat>, trailing: nat)
    requires |words| == |prefixes| == |lasts| == |dots| > 0
    requires forall k :: 0 <= k < |words| ==> words[k] == DottedWord(prefixes[k], lasts[k], dots[k])
    requires forall k :: 0 <= k < |words| ==> lasts[k] != "" && '.' !in lasts[k] && '_' !in words[k]
    ensures VariableNameOf(Join(words, '_') + Repeat('_', trailing)) == Some(CamelCase(lasts))
  {
    forall k | 0 <= k < |words|
      ensures WordPart(words[k], k) == Some(if k > 0 then UpperFirst(lasts[k]) else lasts[k])
    {
      DottedWordPart(prefixes[k], lasts[k], dots[k], k);
    }
    var n := |words| - 1;
    assert words[n] != "" by {
      assert |words[n]| >= |lasts[n]|;
    }
    TokensOfJoin(words, trailing, '_');
    WordsAreCamelCased(words, lasts);
  }

  /** The dotted spelling of each word of a list with no dots-only word. */
  lemma DottedWords(words: seq<string>) returns (prefixes: seq<Option<string>>, lasts: seq<string>, dots: seq<nat>)
    requires forall k :: 0 <= k < |words| ==> !OnlyDots(words[k])
    ensures |prefixes| == |lasts| == |dots| == |words|
    ensures forall k :: 0 <= k < |words| ==> words[k] == DottedWord(prefixes[k], lasts[k], dots[k])
    ensures forall k :: 0 <= k < |words| ==> lasts[k] != "" && '.' !in lasts[k]
  {
    prefixes, lasts, dots := [], [], [];
    var i := 0;
    while i < |words|
      invariant i <= |words| && |prefixes| == |lasts| == |dots| == i
      invariant forall k :: 0 <= k < i ==> words[k] == DottedWord(prefixes[k], lasts[k], dots[k])
      invariant forall k :: 0 <= k < i ==> lasts[k] != "" && '.' !in lasts[k]
    {
      var prefix, last, d := DottedWordShape(words[i]);
      prefixes, lasts, dots := prefixes + [prefix], lasts + [last], dots + [d];
      i := i + 1;
    }
  }

  /**
   * Every id whose variable name is derived at all is camel-cased: the name
   * is CamelCase of the last non-empty `.`-component of each `_`-word.
   */
  lemma DerivedNameIsCamelCase(id: string) returns (lasts: seq<string>)
    requires VariableNameOf(id).Some?
    ensures |lasts| == |Tokens(id, '_')|
    ensures forall k :: 0 <= k < |lasts| ==> WordPart(Tokens(id, '_')[k], 0) == Some(lasts[k])
    ensures VariableNameOf(id) == Some(CamelCase(lasts))
  {
    var words := Tokens(id, '_');
    var trailing := TokensDecompose(id, '_');
    VariableNameFails(id);
    var prefixes, dots;
    prefixes, lasts, dots := DottedWords(words);
    forall k | 0 <= k < |words| ensures WordPart(words[k], 0) == Some(lasts[k]) {
      DottedWordPart(prefixes[k], lasts[k], dots[k], 0);
    }
    if words != [] {
      SnakeCaseBecomesCamelCase(words, prefixes, lasts, dots, trailing);
    }
  }

  lemma DottedExampleSpelling()
    ensures Join(["a.b", "c.d"], '_') + Repeat('_', 0) == "a.b_c.d"
    ensures "a.b" == DottedWord(Some("a"), "b", 0) && "c.d" == DottedWord(Some("c"), "d", 0)
    ensures CamelCase(["b", "d"]) == "bD"
  {
    assert ["a.b", "c.d"][1..] == ["c.d"];
    assert ["b", "d"][..1] == ["b"] && ["b"][..0] == [];
  }

  /** Only the last `.`-component of each word counts: `a.b_c.d` gives `bD`. */
  lemma DottedIdExample()
    ensures VariableNameOf("a.b_c.d") == Some("bD")
  {
    DottedExampleSpelling();
    SnakeCaseBecomesCamelCase(["a.b", "c.d"], [Some("a"), Some("c")], ["b", "d"], [0, 0], 0);
  }

  lemma SnakeExampleJoin()
    ensures Join(["user", "name", "label"], '_') + Repeat('_', 0) == "user_name_label"
    ensures "user" == DottedWord(None, "user", 0) && "name" == DottedWord(None, "name", 0)
    ensures "label" == DottedWord(None, "label", 0)
  {
    assert ["user", "name", "label"][1..] == ["name", "label"];
    assert ["name", "label"][1..] == ["label"];
  }

  lemma SnakeExampleCamelCase()
    ensures CamelCase(["user", "name", "label"]) == "userNameLabel"
  {
    assert ["user", "name", "label"][..2] == ["user", "name"];
    assert ["user", "name"][..1] == ["user"] && ["user"][..0] == [];
  }

  /** `user_name_label` gives `userNameLabel`. */
  lemma SnakeIdExample()
    ensures VariableNameOf("user_name_label") == Some("userNameLabel")
  {
    SnakeExampleJoin();
    SnakeExampleCamelCase();
    SnakeCaseBecomesCamelCase(["user", "name", "label"], [None, None, None], ["user", "name", "label"], [0, 0, 0], 0);
  }

  /** Trailing underscores are dropped before the words are read, so they never crash. */
  lemma TrailingUnderscoresDropped()
    ensures VariableNameOf("a__") == Some("a")
    ensures VariableNameOf("_") == Some("")
  {
    assert "a__" == Join(["a"], '_') + Repeat('_', 2);
    assert DottedWord(None, "a", 0) == "a" && CamelCase(["a"]) == "a";
    SnakeCaseBecomesCamelCase(["a"], [None], ["a"], [0], 2);
    TokensEmpty("_", '_');
    assert Tokens("_", '_') == [];
    assert WordParts([]) == [];
  }

  /** An id with neither `_` nor `.` is its own variable name (`title` stays `title`). */
  lemma PlainIdIsItsVariableName(id: string)
    requires '_' !in id && '.' !in id
    ensures VariableNameOf(id) == Some(id)
  {
    if id == "" {
      TokensEmpty("", '_');
      assert Tokens(id, '_') == [];
      assert WordParts([]) == [];
      assert CamelJoin([]) == Some("");
    } else {
      assert DottedWord(None, id, 0) == id;
      SnakeCaseBecomesCamelCase([id], [None], [id], [0], 0);
      assert Join([id], '_') + Repeat('_', 0) == id;
      assert [id][..0] == [];
      assert CamelCase([id]) == CamelCase([]) + id == id;
    }
  }

  // ===========================================================================
  // The class name

  /** `name` and `fullName` of an Entry. */
  datatype ClassName = ClassName(name: string, fullName: Option<string>)

  function SplitClassName(tagName: string): ClassName
  {
    var packages := Tokens(tagName, '.');
    if |packages| > 1 then ClassName(packages[|packages| - 1], Some(tagName))
    else ClassName(tagName, None)
  }

  /**
   * A name with a non-empty `.`-component after some `.` is qualified: the
   * qualified name is the whole input and the short name is the last non-empty
   * component (trailing dots ignored).
   */
  lemma QualifiedClassName(prefix: string, last: string, k: nat)
    requires last != "" && '.' !in last
    ensures SplitClassName(prefix + "." + last + Repeat('.', k)) ==
            ClassName(last, Some(prefix + "." + last + Repeat('.', k)))
  {
    var n := prefix + "." + last + Repeat('.', k);
    var tail := [last] + Repeat("", k);
    JoinEmptyTail([last], k, '.');
    assert forall j :: 0 <= j < |tail| ==> '.' !in tail[j] by {
      forall j | 0 <= j < |tail| ensures '.' !in tail[j] {
        if j > 0 { assert tail[j] == ""; }
      }
    }
    JoinThenSplit(tail, '.');
    assert n == prefix + ['.'] + Join(tail, '.');
    SplitAtSeparator(prefix, Join(tail, '.'), '.');
    var ps := Split(prefix, '.') + [last];
    assert Split(n, '.') == ps + Repeat("", k);
    DropEmptyTail(ps, k);
  }

  /** Conversely, a qualified result comes only from such a name. */
  lemma QualifiedClassNameShape(tagName: string) returns (prefix: string, k: nat)
    requires SplitClassName(tagName).fullName.Some?
    ensures SplitClassName(tagName).fullName == Some(tagName)
    ensures var last := SplitClassName(tagName).name;
      last != "" && '.' !in last && tagName == prefix + "." + last + Repeat('.', k)
  {
    var packages := Tokens(tagName, '.');
    k := TokensDecompose(tagName, '.');
    var m := |packages| - 1;
    assert packages == packages[..m] + [packages[m]];
    JoinSnoc(packages[..m], packages[m], '.');
    prefix := Join(packages[..m], '.');
  }

  /** A name whose dots all trail (no dot at all included) is kept as it is, unqualified. */
  lemma UnqualifiedClassName(body: string, k: nat)
    requires '.' !in body
    ensures SplitClassName(body + Repeat('.', k)) == ClassName(body + Repeat('.', k), None)
  {
    var n := body + Repeat('.', k);
    if body == "" {
      assert n == Repeat('.', k);
      TokensEmpty(n, '.');
    } else {
      assert n == Join([body], '.') + Repeat('.', k);
      TokensOfJoin([body], k, '.');
    }
  }

  // ===========================================================================
  // The validity pattern  ^([a-zA-Z_\$][\w\$]*)$

  predicate IsIdentifierStart(c: char)
  {
    'a' <= c <= 'z' || 'A' <= c <= 'Z' || c == '_' || c == '$'
  }

  predicate IsIdentifierPart(c: char)
  {
    IsIdentifierStart(c) || '0' <= c <= '9'
  }

  /** A Java-style identifier: an identifier start followed by identifier parts. */
  predicate IsIdentifier(w: string)
  {
    |w| > 0 && IsIdentifierStart(w[0]) && forall j :: 1 <= j < |w| ==> IsIdentifierPart(w[j])
  }

  predicate IsLineTerminator(c: char)
  {
    c == '\n' || c == '\r' || c == '\U{85}' || c == '\U{2028}' || c == '\U{2029}'
  }

  /** What Java's `$` lets through after the last matched character in single-line mode: nothing or one final line terminator. */
  predicate IsFinalTerminator(t: string)
  {
    t == "" || t == "\r\n" || (|t| == 1 && IsLineTerminator(t[0]))
  }

  /** The end of the run of identifier parts starting at i (the greedy `[\w\$]*`). */
  function IdentifierRunEnd(s: string, i: nat): (k: nat)
    requires i <= |s|
    ensures i <= k <= |s|
    ensures forall j :: i <= j < k ==> IsIdentifierPart(s[j])
    ensures k < |s| ==> !IsIdentifierPart(s[k])
    decreases |s| - i
  {
    if i == |s| || !IsIdentifierPart(s[i]) then i else IdentifierRunEnd(s, i + 1)
  }

  /** The matcher for the validity pattern, as `find()` runs it (`^` anchors it to the start). */
  function MatchesValidityPattern(s: string): bool
  {
    |s| > 0 && IsIdentifierStart(s[0]) && IsFinalTerminator(s[IdentifierRunEnd(s, 1)..])
  }

  /** The validity pattern accepts exactly an identifier, optionally followed by one final line terminator. */
  lemma ValidityPatternMeaning(s: string)
    ensures MatchesValidityPattern(s) <==>
            exists k :: 0 <= k <= |s| && IsIdentifier(s[..k]) && IsFinalTerminator(s[k..])
  {
    if MatchesValidityPattern(s) {
      var k := IdentifierRunEnd(s, 1);
      assert IsIdentifier(s[..k]);
    }
    if exists k :: 0 <= k <= |s| && IsIdentifier(s[..k]) && IsFinalTerminator(s[k..]) {
      var k :| 0 <= k <= |s| && IsIdentifier(s[..k]) && IsFinalTerminator(s[k..]);
      assert forall j :: 1 <= j < k ==> IsIdentifierPart(s[j]) by {
        forall j | 1 <= j < k ensures IsIdentifierPart(s[j]) { assert s[j] == s[..k][j]; }
      }
      RunEndAt(s, 1, k);
    }
  }

  lemma {:induction false} RunEndAt(s: string, i: nat, k: nat)
    requires 1 <= i <= k <= |s|
    requires forall j :: i <= j < k ==> IsIdentifierPart(s[j])
    requires k < |s| ==> IsLineTerminator(s[k])
    ensures IdentifierRunEnd(s, i) == k
    decreases k - i
  {
    if i < k {
      RunEndAt(s, i + 1, k);
    }
  }

  lemma TerminatorAt(s: string, k: nat)
    requires k < |s| && IsFinalTerminator(s[k..])
    ensures IsLineTerminator(s[k])
  {
    assert s[k..][0] == s[k];
  }

  /** For names without line terminators the pattern is exactly the identifier rule. */
  lemma ValidityWithoutTerminators(s: string)
    requires forall j :: 0 <= j < |s| ==> !IsLineTerminator(s[j])
    ensures MatchesValidityPattern(s) <==> IsIdentifier(s)
  {
    ValidityPatternMeaning(s);
    if MatchesValidityPattern(s) {
      var k :| 0 <= k <= |s| && IsIdentifier(s[..k]) && IsFinalTerminator(s[k..]);
      if k < |s| {
        TerminatorAt(s, k);
      }
      assert s[..k] == s;
    }
    if IsIdentifier(s) {
      assert s[..|s|] == s && s[|s|..] == "";
    }
  }

  lemma ValidityExamples()
    ensures MatchesValidityPattern("_foo1") && MatchesValidityPattern("$bar")
    ensures !MatchesValidityPattern("1abc") && !MatchesValidityPattern("foo-bar") && !MatchesValidityPattern("")
    ensures MatchesValidityPattern("name\n")
  {
    RunEndAt("_foo1", 1, 5);
    RunEndAt("$bar", 1, 4);
    assert IdentifierRunEnd("foo-bar", 3) == 3;
    RunEndAt("name\n", 1, 4);
  }

  // ===========================================================================
  // The record

  /** The value of every field of an Entry. */
  datatype EntryView = EntryView(
    id: string,
    fullId: string,
    isAndroidNS: bool,
    fullName: Option<string>,
    name: string,
    variableName: string,
    isValid: bool,
    used: bool)

  function FullId(id: string, androidNS: bool): string
  {
    if androidNS then "android.R.id." + id else "R.id." + id
  }

  /** The fields a freshly constructed Entry holds; None where the constructor throws. */
  function InitialView(tagName: string, rawId: string): Option<EntryView>
  {
    var m := FindId(rawId);
    var id := if m.Some? then m.value.id else "";
    var ns := m.Some? && m.value.androidNS;
    var cn := SplitClassName(tagName);
    match VariableNameOf(id)
    case None => None
    case Some(v) => Some(EntryView(id, FullId(id, ns), ns, cn.fullName, cn.name, v, false, true))
  }

  /** A raw value the pattern does not match yields an entry with the defaults, not an error. */
  lemma UnmatchedIdKeepsDefaults(tagName: string, rawId: string)
    requires FindId(rawId).None?
    ensures InitialView(tagName, rawId).Some?
    ensures var v := InitialView(tagName, rawId).value;
      v.id == "" && !v.isAndroidNS && v.fullId == "R.id." && v.variableName == ""
  {
    TokensEmpty("", '_');
  }

  /**
   * A fresh entry: the id is the parsed group (or empty), the accessor is
   * prefixed by the namespace, the class name is split, `used` is set and
   * `isValid` is not.
   */
  lemma InitialViewFields(tagName: string, rawId: string)
    requires InitialView(tagName, rawId).Some?
    ensures var v := InitialView(tagName, rawId).value;
      && (FindId(rawId).Some? ==> v.id == FindId(rawId).value.id && v.isAndroidNS == FindId(rawId).value.androidNS)
      && (FindId(rawId).None? ==> v.id == "" && !v.isAndroidNS)
      && v.fullId == (if v.isAndroidNS then "android.R.id." else "R.id.") + v.id
      && ClassName(v.name, v.fullName) == SplitClassName(tagName)
      && Some(v.variableName) == VariableNameOf(v.id)
      && v.used && !v.isValid
  {
  }

  // ===========================================================================
  // The class

  class Entry {
    var id: string
    var fullId: string
    var isAndroidNS: bool
    var fullName: Option<string>
    var name: string
    var variableName: string
    var isValid: bool
    var used: bool

    function View(): EntryView
      reads this
    {
      EntryView(id, fullId, isAndroidNS, fullName, name, variableName, isValid, used)
    }

    /** The source throws from generateVariableName where InitialView is None; callers check first. */
    constructor (name: string, rawId: string)
      requires InitialView(name, rawId).Some?
      ensures View() == InitialView(name, rawId).value
    {
      var matched := FindId(rawId);
      var parsedId := "";
      var androidNS := false;
      if matched.Some? {
        parsedId := matched.value.id;
        androidNS := matched.value.androidNS;
      }
      id := parsedId;
      isAndroidNS := androidNS;
      fullId := if androidNS then "android.R.id." + parsedId else "R.id." + parsedId;
      var packages := Tokens(name, '.');
      if |packages| > 1 {
        fullName := Some(name);
        this.name := packages[|packages| - 1];
      } else {
        fullName := None;
        this.name := name;
      }
      variableName := "";
      isValid := false;
      used := true;
      new;
      assert fullId == FullId(id, isAndroidNS);
      assert ClassName(this.name, fullName) == SplitClassName(name);
      var generated := GenerateVariableName();
      variableName := generated.value;
    }

    /** The loop of generateVariableName over the `_`-separated words of the id; None where it indexes -1. */
    method GenerateVariableName() returns (r: Option<string>)
      ensures r == VariableNameOf(id)
    {
      var words := Tokens(id, '_');
      ghost var parts := WordParts(words);
      var sb := "";
      for i := 0 to |words|
        invariant CamelJoin(parts[..i]) == Some(sb)
      {
        WordPartsAt(words, i);
        var idTokens := Tokens(words[i], '.');
        if |idTokens| == 0 {
          // idTokens[idTokens.size - 1] throws
          CamelJoinMissing(parts, i);
          return None;
        }
        var chars := idTokens[|idTokens| - 1];
        assert parts[i] == Some(if i > 0 then UpperFirst(chars) else chars);
        if i > 0 {
          UpperFirstInPlace(chars);
          chars := chars[0 := UpperAscii(chars[0])];
        }
        CamelJoinStep(parts, i, sb, chars);
        sb := sb + chars;
      }
      assert parts[..|words|] == parts;
      r := Some(sb);
    }

    /** Matches the variable name against the validity pattern, records the answer in isValid and changes nothing else. */
    method CheckValidity() returns (valid: bool)
      modifies this`isValid
      ensures valid == MatchesValidityPattern(variableName)
      ensures View() == old(View()).(isValid := valid)
    {
      isValid := MatchesValidityPattern(variableName);
      valid := isValid;
    }
  }
}
