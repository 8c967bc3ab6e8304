/** Sequence operations the casing library gets from Go's `strings` package:
    deleting chars, filtering by a class, concatenating and joining words. */
module Text {

  /** The chars of `s` for which `keep` holds, in their original order. */
  function Filter(s: string, keep: char -> bool): (r: string)
    ensures |r| <= |s|
    decreases |s|
  {
    if s == [] then []
    else (if keep(s[0]) then [s[0]] else []) + Filter(s[1..], keep)
  }

  /** A char is in the filtered text exactly when it is in the text and kept. */
  lemma {:induction false} FilterMembers(s: string, keep: char -> bool)
    ensures forall c :: c in Filter(s, keep) <==> c in s && keep(c)
    decreases |s|
  {
    if s != [] {
      FilterMembers(s[1..], keep);
      assert s == [s[0]] + s[1..];
    }
  }

  lemma {:induction false} FilterAppend(a: string, b: string, keep: char -> bool)
    ensures Filter(a + b, keep) == Filter(a, keep) + Filter(b, keep)
    decreases |a|
  {
    if a == [] {
      assert a + b == b;
    } else {
      assert (a + b)[0] == a[0];
      assert (a + b)[1..] == a[1..] + b;
      FilterAppend(a[1..], b, keep);
      var head := if keep(a[0]) then [a[0]] else [];
      AppendAssoc(head, Filter(a[1..], keep), Filter(b, keep));
    }
  }

  /** A filter that keeps every char of `s` returns `s`. */
  lemma {:induction false} FilterKeepsAll(s: string, keep: char -> bool)
    requires forall i :: 0 <= i < |s| ==> keep(s[i])
    ensures Filter(s, keep) == s
    decreases |s|
  {
    if s != [] {
      FilterKeepsAll(s[1..], keep);
    }
  }

  /** Filtering text whose first dropped char `x` follows the kept run `a`. */
  lemma FilterAfter(a: string, x: char, b: string, keep: char -> bool)
    requires forall i :: 0 <= i < |a| ==> keep(a[i])
    requires !keep(x)
    ensures Filter(a + [x] + b, keep) == a + Filter(b, keep)
  {
    FilterAppend(a + [x], b, keep);
    FilterAppend(a, [x], keep);
    FilterKeepsAll(a, keep);
    assert [x][1..] == [];
    assert Filter([x], keep) == [];
    assert Filter(a + [x], keep) == a;
  }

  /** `strings.Replace(s, [c], "", -1)`: every occurrence of `c` deleted. */
  function Delete(s: string, c: char): string
  {
    Filter(s, d => d != c)
  }

  /** Deleting `c` removes it and keeps every other char. */
  lemma DeleteMembers(s: string, c: char)
    ensures c !in Delete(s, c)
    ensures forall d :: d != c ==> (d in Delete(s, c) <==> d in s)
  {
    FilterMembers(s, d => d != c);
  }

  /** Deleting distributes over concatenation. */
  lemma DeleteAppend(a: string, b: string, c: char)
    ensures Delete(a + b, c) == Delete(a, c) + Delete(b, c)
  {
    FilterAppend(a, b, d => d != c);
  }

  /** Deleting a char the text does not hold changes nothing. */
  lemma DeleteAbsent(s: string, c: char)
    requires forall i :: 0 <= i < |s| ==> s[i] != c
    ensures Delete(s, c) == s
  {
    FilterKeepsAll(s, d => d != c);
  }

  /** A first char other than `c` stays first. */
  lemma DeleteKeepsHead(x: char, u: string, c: char)
    requires x != c
    ensures Delete([x] + u, c) == [x] + Delete(u, c)
  {
    DeleteAppend([x], u, c);
    DeleteAbsent([x], c);
  }

  /** Deleting `c` from text whose first `c` follows `a`. */
  lemma DeleteAfter(a: string, b: string, c: char)
    requires forall i :: 0 <= i < |a| ==> a[i] != c
    ensures Delete(a + [c] + b, c) == a + Delete(b, c)
  {
    FilterAfter(a, c, b, d => d != c);
  }

  /** The words written one after another. */
  function Concat(ws: seq<string>): string
    decreases |ws|
  {
    if ws == [] then "" else ws[0] + Concat(ws[1..])
  }

  /** `strings.Join`-like: the words with `sep` between neighbours. It is
      defined on the last word, which is the order in which the decomposer
      builds its result. */
  function Join(ws: seq<string>, sep: string): (r: string)
    ensures ws == [] ==> r == ""
    ensures |ws| == 1 ==> r == ws[0]
    decreases |ws|
  {
    if ws == [] then ""
    else if |ws| == 1 then ws[0]
    else Join(ws[..|ws| - 1], sep) + sep + ws[|ws| - 1]
  }

  lemma SliceOfSlice<T>(s: seq<T>, p: nat, e: nat)
    requires p + e <= |s|
    ensures s[p..][..e] == s[p..p + e] && s[p..][e..] == s[p + e..]
  {
  }

  lemma AppendAssoc<T>(a: seq<T>, b: seq<T>, c: seq<T>)
    ensures a + (b + c) == a + b + c
  {
  }
}
