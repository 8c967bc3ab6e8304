/** The PascalCase to snake_case decomposer (utils.go `PascalCaseToSnakeCase`):
    it cuts a compact identifier into words at its word breaks, taking a
    leading initialism as one word, and joins the lower-cased words with '_'. */
module Decompose {
  import opened Runes
  import opened Text
  import opened Initialisms

  /** The first word break of `s` at or after `j`, or `|s|` when there is none. */
  function NextBreak(s: string, j: nat): (k: nat)
    requires j <= |s|
    ensures j <= k <= |s|
    ensures forall m :: j <= m < k ==> !IsWordBreak(s, m)
    ensures k < |s| ==> IsWordBreak(s, k)
    decreases |s| - j
  {
    if j == |s| || IsWordBreak(s, j) then j else NextBreak(s, j + 1)
  }

  /** Conversely, a position with no break from `j` up to it, and a break
      or the end of `s` at it, is the next break. */
  lemma NextBreakUnique(s: string, j: nat, k: nat)
    requires j <= k <= |s|
    requires forall m :: j <= m < k ==> !IsWordBreak(s, m)
    requires k < |s| ==> IsWordBreak(s, k)
    ensures NextBreak(s, j) == k
  {
  }

  /** Where the word that starts at `p` ends: a leading initialism of the rest
      `s[p..]` is one word; otherwise the word runs to the next break. */
  function CutAt(s: string, p: nat, table: set<string>): (q: nat)
    requires p < |s|
    ensures p < q <= |s|
  {
    var ini := Initialism(s[p..], table);
    if ini != "" then p + |ini| else NextBreak(s, p + 1)
  }

  /** The words of `s` from position `p` on. */
  function WordsFrom(s: string, p: nat, table: set<string>): seq<string>
    requires p <= |s|
    decreases |s| - p
  {
    if p == |s| then []
    else
      var q := CutAt(s, p, table);
      [s[p..q]] + WordsFrom(s, q, table)
  }

  /** The words the decomposer cuts `s` into. */
  function Words(s: string, table: set<string>): seq<string>
  {
    WordsFrom(s, 0, table)
  }

  /** The words tile `s[p..]`: written one after another they give it back,
      so no char is lost or repeated. */
  lemma {:induction false} WordsFromTile(s: string, p: nat, table: set<string>)
    requires p <= |s|
    ensures Concat(WordsFrom(s, p, table)) == s[p..]
    decreases |s| - p
  {
    if p < |s| {
      var q := CutAt(s, p, table);
      var rest := WordsFrom(s, q, table);
      WordsFromTile(s, q, table);
      assert WordsFrom(s, p, table) == [s[p..q]] + rest;
      assert ([s[p..q]] + rest)[1..] == rest;
      assert s[p..q] + s[q..] == s[p..];
    }
  }

  /** The words from `p` are the word up to the cut, then the words from
      the cut. */
  lemma WordsFromCons(s: string, p: nat, q: nat, ws: seq<string>, table: set<string>)
    requires p < |s| && CutAt(s, p, table) == q
    requires |ws| > 0 && s[p..q] == ws[0] && WordsFrom(s, q, table) == ws[1..]
    ensures WordsFrom(s, p, table) == ws
  {
    assert [ws[0]] + ws[1..] == ws;
  }

  /** No word is empty. */
  lemma {:induction false} WordsFromNonEmpty(s: string, p: nat, table: set<string>)
    requires p <= |s|
    ensures forall w :: w in WordsFrom(s, p, table) ==> w != ""
    decreases |s| - p
  {
    if p < |s| {
      WordsFromNonEmpty(s, CutAt(s, p, table), table);
    }
  }

  /** Each word lower-cased. */
  function LowerEach(ws: seq<string>): (ls: seq<string>)
    ensures |ls| == |ws| && forall i :: 0 <= i < |ws| ==> ls[i] == Lower(ws[i])
  {
    seq(|ws|, i requires 0 <= i < |ws| => Lower(ws[i]))
  }

  /** What `PascalCaseToSnakeCase` returns for `s`. */
  function Decomposed(s: string): string
  {
    Join(LowerEach(Words(s, CommonInitialisms)), "_")
  }

  /** At the first break `i` after `p` the decomposer looks for an
      initialism at `p`. When there is one, `i` is `p + 1`, so the source's
      jump to `i + |ini| - 1` ends the word where `CutAt` does; otherwise the
      word ends at `i`. */
  lemma CutAtBreak(s: string, p: nat, i: nat, table: set<string>)
    requires WellShaped(table)
    requires p < i < |s| && NextBreak(s, p + 1) == i
    ensures Initialism(s[p..], table) != "" ==> i == p + 1
    ensures CutAt(s, p, table)
         == if Initialism(s[p..], table) != "" then i + |Initialism(s[p..], table)| - 1 else i
    ensures CutAt(s, p, table) <= |s|
  {
    InitialismAtFirstBreak(s[p..], table);
    SuffixBreaks(s, p);
  }

  /** A position that is not a break is passed over by the search for the
      next break. */
  lemma PastNonBreak(s: string, p: nat, i: nat)
    requires p <= i < |s| && (p < i || i == 0)
    requires p < i ==> i <= NextBreak(s, p + 1) && !IsWordBreak(s, i)
    ensures i + 1 <= NextBreak(s, p + 1)
  {
  }

  /** Without a further break the rest `s[p..]` is one word: no initialism
      can start at `p`, since that would put a break at `p + 1`. */
  lemma CutAtEnd(s: string, p: nat, table: set<string>)
    requires WellShaped(table)
    requires p < |s| && NextBreak(s, p + 1) == |s|
    ensures CutAt(s, p, table) == |s|
  {
    InitialismAtFirstBreak(s[p..], table);
    SuffixBreaks(s, p);
  }

  /** The state the decomposer's scan loop keeps: `lastPos` is where the
      current word starts, `i` the position looked at, and no break lies
      strictly between them. */
  predicate ScanState(s: string, lastPos: nat, i: nat)
  {
    && lastPos <= |s| && lastPos <= i <= |s| + 1 && (lastPos < i || i == 0)
    && (lastPos < |s| && lastPos < i ==> i <= NextBreak(s, lastPos + 1))
  }

  /** At a break `i` where an initialism is found at `lastPos`, that
      initialism is the next word, and the source's jump of `i` to the
      initialism's last char (then one step on) is a scan state again. */
  lemma InitialismStep(s: string, lastPos: nat, i: nat, ini: string, q: nat, words: seq<string>, table: set<string>)
    requires WellShaped(table)
    requires ScanState(s, lastPos, i) && 0 < i < |s| && IsWordBreak(s, i)
    requires ini == Initialism(s[lastPos..], table) && ini != ""
    requires q == i + |ini| - 1
    ensures q <= |s| && ScanState(s, q, q + 1)
    ensures words + WordsFrom(s, lastPos, table) == words + [ini] + WordsFrom(s, q, table)
  {
    CutAtBreak(s, lastPos, i, table);
    assert CutAt(s, lastPos, table) == q;
    SliceOfSlice(s, lastPos, |ini|);
    assert ini == s[lastPos..q];
    assert WordsFrom(s, lastPos, table) == [ini] + WordsFrom(s, q, table);
    AppendAssoc(words, [ini], WordsFrom(s, q, table));
  }

  /** At a break `i` where no initialism is found, `s[lastPos..i]` is the
      next word and the scan goes on from `i`. */
  lemma WordStep(s: string, lastPos: nat, i: nat, words: seq<string>, table: set<string>)
    requires WellShaped(table)
    requires ScanState(s, lastPos, i) && 0 < i < |s| && IsWordBreak(s, i)
    requires Initialism(s[lastPos..], table) == ""
    ensures ScanState(s, i, i + 1)
    ensures words + WordsFrom(s, lastPos, table) == words + [s[lastPos..i]] + WordsFrom(s, i, table)
  {
    CutAtBreak(s, lastPos, i, table);
    assert CutAt(s, lastPos, table) == i;
    assert WordsFrom(s, lastPos, table) == [s[lastPos..i]] + WordsFrom(s, i, table);
    AppendAssoc(words, [s[lastPos..i]], WordsFrom(s, i, table));
  }

  /** When the scan has passed the end, the rest `s[lastPos..]` is the last
      word, or nothing when it is empty. */
  lemma EndStep(s: string, lastPos: nat, i: nat, table: set<string>)
    requires WellShaped(table)
    requires ScanState(s, lastPos, i) && i >= |s|
    ensures WordsFrom(s, lastPos, table) == if lastPos < |s| then [s[lastPos..]] else []
  {
    if lastPos < |s| {
      CutAtEnd(s, lastPos, table);
      assert s[lastPos..|s|] == s[lastPos..];
    }
  }

  /** Joining one more lower-cased word. */
  lemma JoinStep(ws: seq<string>, k: nat)
    requires k < |ws|
    ensures Join(LowerEach(ws[..k + 1]), "_")
         == Join(LowerEach(ws[..k]), "_") + (if k > 0 then "_" else "") + Lower(ws[k])
  {
    assert LowerEach(ws[..k + 1])[..k] == LowerEach(ws[..k]);
  }

  /** The decomposer's loops: the scan that collects the words, then the
      loop that joins them. */
  method PascalCaseToSnakeCase(s: string) returns (result: string)
    ensures result == Decomposed(s)
  {
    CommonInitialismsWellShaped();
    var words: seq<string> := [];
    var lastPos: nat := 0;
    // rs := []rune(s) is s itself on ASCII input
    var rs := s;

    var i := 0;
    while i < |rs|
      invariant ScanState(s, lastPos, i)
      invariant words + WordsFrom(s, lastPos, CommonInitialisms) == Words(s, CommonInitialisms)
      decreases |rs| - i
    {
      if i > 0 && IsWordBreak(rs, i) {
        var initialism := StartsWithInitialism(s[lastPos..]);
        if initialism != "" {
          ghost var (at, before) := (i, words);
          words := words + [initialism];
          // move the position forwards past the initialism
          i := i + |initialism| - 1;
          InitialismStep(s, lastPos, at, initialism, i, before, CommonInitialisms);
          lastPos := i;
          i := i + 1;
          continue;
        }
        // not an initialism, so cut the previous word
        WordStep(s, lastPos, i, words, CommonInitialisms);
        words := words + [s[lastPos..i]];
        lastPos := i;
      } else {
        PastNonBreak(s, lastPos, i);
      }
      i := i + 1;
    }

    // append the last word
    EndStep(s, lastPos, i, CommonInitialisms);
    if s[lastPos..] != "" {
      words := words + [s[lastPos..]];
    }
    assert words == Words(s, CommonInitialisms);

    result := JoinLowered(words);
  }

  /** The decomposer's second loop: the words lower-cased, with '_' between
      neighbours. */
  method JoinLowered(words: seq<string>) returns (result: string)
    ensures result == Join(LowerEach(words), "_")
  {
    result := "";
    for k := 0 to |words|
      invariant result == Join(LowerEach(words[..k]), "_")
    {
      JoinStep(words, k);
      if k > 0 {
        result := result + "_";
      }
      result := result + Lower(words[k]);
    }
    assert words[..|words|] == words;
  }

  /** The words are the input cut into non-empty pieces, so the output is
      the lower-cased input with '_' between the pieces. */
  lemma {:induction false} DecomposedIsLoweredJoin(s: string)
    ensures Decomposed(s) == Lower(Join(Words(s, CommonInitialisms), "_"))
    ensures Concat(Words(s, CommonInitialisms)) == s
    ensures forall w :: w in Words(s, CommonInitialisms) ==> w != ""
  {
    JoinLower(Words(s, CommonInitialisms));
    WordsFromTile(s, 0, CommonInitialisms);
    WordsFromNonEmpty(s, 0, CommonInitialisms);
  }

  lemma {:induction false} JoinLower(ws: seq<string>)
    ensures Join(LowerEach(ws), "_") == Lower(Join(ws, "_"))
    decreases |ws|
  {
    if |ws| > 1 {
      var n := |ws| - 1;
      assert LowerEach(ws)[..n] == LowerEach(ws[..n]);
      JoinLower(ws[..n]);
      LowerAppend(Join(ws[..n], "_") + "_", ws[n]);
      LowerAppend(Join(ws[..n], "_"), "_");
    }
  }
}
