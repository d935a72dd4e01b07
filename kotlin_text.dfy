/**
 * The string helpers the plugin takes from the Kotlin standard library, for a
 * one-character literal separator: `s.split(Regex(sep))` keeps every part,
 * empty ones included, and `.dropLastWhile { it.isEmpty() }` removes the empty
 * parts at the end. Also ASCII case mapping.
 */
module KotlinText {

  /** `s.split(Regex(sep))`: the maximal separator-free pieces between separators, every one kept. */
  function Split(s: string, sep: char): (parts: seq<string>)
    ensures |parts| >= 1
    ensures forall k :: 0 <= k < |parts| ==> sep !in parts[k]
    decreases |s|
  {
    if s == [] then [""]
    else
      var rest := Split(s[1..], sep);
      if s[0] == sep then [""] + rest
      else [[s[0]] + rest[0]] + rest[1..]
  }

  /** The inverse of Split: the parts with one separator between neighbours. */
  function Join(parts: seq<string>, sep: char): string
    decreases |parts|
  {
    if parts == [] then ""
    else if |parts| == 1 then parts[0]
    else parts[0] + [sep] + Join(parts[1..], sep)
  }

  function Repeat<T>(x: T, k: nat): (r: seq<T>)
    ensures |r| == k && forall j :: 0 <= j < k ==> r[j] == x
  {
    if k == 0 then [] else [x] + Repeat(x, k - 1)
  }

  /** `.dropLastWhile { it.isEmpty() }` */
  function DropTrailingEmpty(parts: seq<string>): (r: seq<string>)
    ensures r <= parts
    ensures r == [] || r[|r| - 1] != ""
    ensures forall k :: |r| <= k < |parts| ==> parts[k] == ""
    decreases |parts|
  {
    if parts == [] || parts[|parts| - 1] != "" then parts
    else DropTrailingEmpty(parts[..|parts| - 1])
  }

  /** `s.split(Regex(sep)).dropLastWhile { it.isEmpty() }` */
  function Tokens(s: string, sep: char): (r: seq<string>)
    ensures r == [] || r[|r| - 1] != ""
    ensures forall k :: 0 <= k < |r| ==> sep !in r[k]
  {
    DropTrailingEmpty(Split(s, sep))
  }

  /** Kotlin's `mapIndexed`: f applied to every element together with its index. */
  function MapIndexed<A, B>(xs: seq<A>, f: (A, nat) -> B): (ys: seq<B>)
    ensures |ys| == |xs|
    decreases |xs|
  {
    if xs == [] then [] else MapIndexed(xs[..|xs| - 1], f) + [f(xs[|xs| - 1], |xs| - 1)]
  }

  lemma {:induction false} MapIndexedAt<A, B>(xs: seq<A>, f: (A, nat) -> B, k: nat)
    requires k < |xs|
    ensures MapIndexed(xs, f)[k] == f(xs[k], k)
    decreases |xs|
  {
    var n := |xs| - 1;
    if k < n {
      MapIndexedAt(xs[..n], f, k);
      assert xs[..n][k] == xs[k];
    }
  }

  /** A character absent from the input is absent from every part. */
  lemma {:induction false} SplitAvoids(s: string, sep: char, c: char)
    requires c !in s
    ensures forall k :: 0 <= k < |Split(s, sep)| ==> c !in Split(s, sep)[k]
    decreases |s|
  {
    if s != [] {
      assert forall x :: x in s[1..] ==> x in s;
      SplitAvoids(s[1..], sep, c);
    }
  }

  lemma TokensAvoid(s: string, sep: char, c: char)
    requires c !in s
    ensures forall k :: 0 <= k < |Tokens(s, sep)| ==> c !in Tokens(s, sep)[k]
  {
    SplitAvoids(s, sep, c);
  }

  function LowerAscii(c: char): char
  {
    if 'A' <= c <= 'Z' then (c as int + 32) as char else c
  }

  function UpperAscii(c: char): char
  {
    if 'a' <= c <= 'z' then (c as int - 32) as char else c
  }

  /** Equal up to ASCII letter case (Java regex CASE_INSENSITIVE without UNICODE_CASE). */
  predicate EqualsIgnoreCaseAscii(a: string, b: string)
  {
    |a| == |b| && forall i :: 0 <= i < |a| ==> LowerAscii(a[i]) == LowerAscii(b[i])
  }

  predicate StartsWith(s: string, prefix: string)
  {
    prefix <= s
  }

  // ---------------------------------------------------------------------------
  // Split and Join are inverses

  /** An empty part in front adds one separator in front. */
  lemma JoinConsEmpty(rest: seq<string>, sep: char)
    requires |rest| >= 1
    ensures Join([""] + rest, sep) == [sep] + Join(rest, sep)
  {
    assert ([""] + rest)[1..] == rest;
  }

  /** A character put in front of the first part is put in front of the joined text. */
  lemma JoinExtendFirst(c: char, rest: seq<string>, sep: char)
    requires |rest| >= 1
    ensures Join([[c] + rest[0]] + rest[1..], sep) == [c] + Join(rest, sep)
  {
    var parts := [[c] + rest[0]] + rest[1..];
    if |rest| > 1 {
      assert parts[1..] == rest[1..];
    }
  }

  lemma {:induction false} SplitThenJoin(s: string, sep: char)
    ensures Join(Split(s, sep), sep) == s
    decreases |s|
  {
    if s != [] {
      SplitThenJoin(s[1..], sep);
      var rest := Split(s[1..], sep);
      if s[0] == sep {
        JoinConsEmpty(rest, sep);
      } else {
        JoinExtendFirst(s[0], rest, sep);
      }
      assert s == [s[0]] + s[1..];
    }
  }

  lemma {:induction false} SplitSeparatorFree(s: string, sep: char)
    requires sep !in s
    ensures Split(s, sep) == [s]
    decreases |s|
  {
    if s != [] {
      assert sep !in s[1..] by {
        forall c | c in s[1..] ensures c != sep { assert c in s; }
      }
      SplitSeparatorFree(s[1..], sep);
      assert s == [s[0]] + s[1..];
    }
  }

  /** Splitting at one separator splits the two sides independently. */
  lemma {:induction false} SplitAtSeparator(a: string, b: string, sep: char)
    ensures Split(a + [sep] + b, sep) == Split(a, sep) + Split(b, sep)
    decreases |a|
  {
    if a == [] {
      assert a + [sep] + b == [sep] + b;
      assert ([sep] + b)[1..] == b;
    } else {
      var s := a + [sep] + b;
      assert s[0] == a[0];
      assert s[1..] == a[1..] + [sep] + b;
      SplitAtSeparator(a[1..], b, sep);
    }
  }

  lemma {:induction false} JoinThenSplit(parts: seq<string>, sep: char)
    requires |parts| >= 1
    requires forall k :: 0 <= k < |parts| ==> sep !in parts[k]
    ensures Split(Join(parts, sep), sep) == parts
    decreases |parts|
  {
    if |parts| == 1 {
      SplitSeparatorFree(parts[0], sep);
    } else {
      SplitSeparatorFree(parts[0], sep);
      JoinThenSplit(parts[1..], sep);
      SplitAtSeparator(parts[0], Join(parts[1..], sep), sep);
      assert parts == [parts[0]] + parts[1..];
    }
  }

  lemma {:induction false} JoinSnoc(parts: seq<string>, q: string, sep: char)
    requires |parts| >= 1
    ensures Join(parts + [q], sep) == Join(parts, sep) + [sep] + q
    decreases |parts|
  {
    if |parts| == 1 {
      assert (parts + [q])[1..] == [q];
    } else {
      assert (parts + [q])[1..] == parts[1..] + [q];
      JoinSnoc(parts[1..], q, sep);
    }
  }

  lemma {:induction false} JoinEmptyTail(parts: seq<string>, k: nat, sep: char)
    requires |parts| >= 1
    ensures Join(parts + Repeat("", k), sep) == Join(parts, sep) + Repeat(sep, k)
    decreases k
  {
    if k > 0 {
      assert parts + Repeat("", k) == (parts + [""]) + Repeat("", k - 1);
      JoinEmptyTail(parts + [""], k - 1, sep);
      JoinSnoc(parts, "", sep);
      assert Repeat(sep, k) == [sep] + Repeat(sep, k - 1);
    } else {
      assert parts + Repeat("", 0) == parts;
    }
  }

  lemma {:induction false} DropEmptyTail(parts: seq<string>, k: nat)
    requires parts == [] || parts[|parts| - 1] != ""
    ensures DropTrailingEmpty(parts + Repeat("", k)) == parts
    decreases k
  {
    if k > 0 {
      var ps := parts + Repeat("", k);
      assert ps[..|ps| - 1] == parts + Repeat("", k - 1);
      DropEmptyTail(parts, k - 1);
    } else {
      assert parts + Repeat("", 0) == parts;
    }
  }

  /**
   * Tokens is the unique decomposition of a string into non-empty-ended,
   * separator-free parts joined by the separator and followed by separators.
   */
  lemma TokensOfJoin(parts: seq<string>, k: nat, sep: char)
    requires |parts| >= 1 && parts[|parts| - 1] != ""
    requires forall j :: 0 <= j < |parts| ==> sep !in parts[j]
    ensures Tokens(Join(parts, sep) + Repeat(sep, k), sep) == parts
  {
    JoinEmptyTail(parts, k, sep);
    var ps := parts + Repeat("", k);
    assert forall j :: 0 <= j < |ps| ==> sep !in ps[j] by {
      forall j | 0 <= j < |ps| ensures sep !in ps[j] {
        if j >= |parts| { assert ps[j] == ""; }
      }
    }
    JoinThenSplit(ps, sep);
    DropEmptyTail(parts, k);
  }

  /** Every string is its tokens joined by the separator, followed by some number of separators. */
  lemma TokensDecompose(s: string, sep: char) returns (k: nat)
    ensures s == Join(Tokens(s, sep), sep) + Repeat(sep, k)
  {
    if Tokens(s, sep) == [] {
      TokensEmpty(s, sep);
      k := |s|;
      assert s == Repeat(sep, k);
      return;
    }
    var ps := Split(s, sep);
    var r := Tokens(s, sep);
    k := |ps| - |r|;
    assert ps == r + Repeat("", k);
    SplitThenJoin(s, sep);
    JoinEmptyTail(r, k, sep);
  }

  lemma {:induction false} SplitAllEmpty(s: string, sep: char)
    ensures (forall k :: 0 <= k < |Split(s, sep)| ==> Split(s, sep)[k] == "")
        <==> (forall j :: 0 <= j < |s| ==> s[j] == sep)
    decreases |s|
  {
    if s != [] {
      SplitAllEmpty(s[1..], sep);
      var rest := Split(s[1..], sep);
      if s[0] == sep {
        var ps := Split(s, sep);
        assert ps == [""] + rest;
        assert (forall k :: 0 <= k < |ps| ==> ps[k] == "") <==> (forall k :: 0 <= k < |rest| ==> rest[k] == "") by {
          assert forall k :: 0 <= k < |rest| ==> rest[k] == ps[k + 1];
        }
        assert (forall j :: 0 <= j < |s| ==> s[j] == sep) <==> (forall j :: 0 <= j < |s[1..]| ==> s[1..][j] == sep) by {
          assert forall j :: 0 <= j < |s[1..]| ==> s[1..][j] == s[j + 1];
        }
      } else {
        assert Split(s, sep)[0] == [s[0]] + rest[0];
      }
    }
  }

  /** No token remains exactly when the string is separators only (the empty string included). */
  lemma TokensEmpty(s: string, sep: char)
    ensures Tokens(s, sep) == [] <==> forall j :: 0 <= j < |s| ==> s[j] == sep
  {
    SplitAllEmpty(s, sep);
  }
}
