/** Where the recasers and the decomposer meet: text made of lower-case
    words of two or more letters, separated by single spaces, is
    Pascal-cased to one capital per word, which the decomposer cuts back at
    exactly those capitals. So on such text `PascalCaseToSnakeCase` after
    `PascalCase` gives the same as `SnakeCase`. */
module RoundTrip {
  import opened Runes
  import opened Text
  import opened Initialisms
  import opened Decompose
  import opened Casing

  /** A word of two or more lower-case letters. */
  predicate LowerWord(w: string)
  {
    |w| >= 2 && forall i :: 0 <= i < |w| ==> IsLower(w[i])
  }

  predicate LowerWords(ws: seq<string>)
  {
    forall i :: 0 <= i < |ws| ==> LowerWord(ws[i])
  }

  /** A word of two or more chars: one upper-case letter, then lower-case ones. */
  predicate TitleWord(t: string)
  {
    |t| >= 2 && IsUpper(t[0]) && forall j :: 1 <= j < |t| ==> IsLower(t[j])
  }

  predicate TitleWords(ts: seq<string>)
  {
    forall i :: 0 <= i < |ts| ==> TitleWord(ts[i])
  }

  /** The word with its first char title-cased. */
  function Capitalize(w: string): (r: string)
    ensures |r| == |w|
  {
    if w == [] then [] else [ToTitle(w[0])] + w[1..]
  }

  function CapitalizeEach(ws: seq<string>): (ts: seq<string>)
    ensures |ts| == |ws| && forall i :: 0 <= i < |ws| ==> ts[i] == Capitalize(ws[i])
  {
    seq(|ws|, i requires 0 <= i < |ws| => Capitalize(ws[i]))
  }

  // ---- the snake_case side ----

  lemma SnakeCaseAppend(a: string, b: string)
    ensures SnakeCase(a + b) == SnakeCase(a) + SnakeCase(b)
  {
    assert forall i :: 0 <= i < |a| ==> (a + b)[i] == a[i];
    assert forall i :: |a| <= i < |a| + |b| ==> (a + b)[i] == b[i - |a|];
  }

  /** Snake-casing words separated by spaces puts '_' between the words. */
  lemma {:induction false} SnakeCaseSpacedWords(ws: seq<string>)
    requires LowerWords(ws)
    ensures SnakeCase(Join(ws, " ")) == Join(ws, "_")
    decreases |ws|
  {
    if |ws| == 1 {
      assert SnakeCase(ws[0]) == ws[0];
    } else if |ws| > 1 {
      var n := |ws| - 1;
      var j := Join(ws[..n], " ");
      assert LowerWords(ws[..n]);
      SnakeCaseSpacedWords(ws[..n]);
      SnakeCaseAppend(j + " ", ws[n]);
      SnakeCaseAppend(j, " ");
      assert SnakeCase(" ") == "_";
      assert SnakeCase(ws[n]) == ws[n];
    }
  }

  // ---- the PascalCase side ----

  /** In Pascal mode the mapping starts afresh after a separator. */
  lemma MapCaseAfterSeparator(a: string, b: string)
    requires |a| > 0 && IsSeparator(a[|a| - 1])
    ensures MapCase(a + b, false) == MapCase(a, false) + MapCase(b, false)
  {
    var u := a + b;
    forall i | 0 <= i < |u|
      ensures MapCase(u, false)[i] == (MapCase(a, false) + MapCase(b, false))[i]
    {
      if i > |a| {
        assert u[i] == b[i - |a|] && u[i - 1] == b[i - |a| - 1];
      } else if i == |a| {
        assert u[i] == b[0] && u[i - 1] == a[|a| - 1];
      } else if i > 0 {
        assert u[i] == a[i] && u[i - 1] == a[i - 1];
      }
    }
  }

  /** A space after some text is mapped to itself. */
  lemma MapCaseSpace(a: string)
    requires |a| > 0
    ensures MapCase(a + " ", false) == MapCase(a, false) + " "
  {
    var u := a + " ";
    forall i | 0 <= i < |u|
      ensures MapCase(u, false)[i] == (MapCase(a, false) + " ")[i]
    {
      if i < |a| && i > 0 {
        assert u[i] == a[i] && u[i - 1] == a[i - 1];
      }
    }
  }

  /** A lower-case word is Pascal-mapped to its capitalized form. */
  lemma MapCaseLowerWord(w: string)
    requires LowerWord(w)
    ensures MapCase(w, false) == Capitalize(w)
  {
    forall i | 0 <= i < |w| ensures MapCase(w, false)[i] == Capitalize(w)[i] {
      if i > 0 {
        assert !IsSeparator(w[i - 1]);
      }
    }
  }

  /** One more spaced word. */
  lemma MapCaseJoinStep(j: string, w: string)
    requires |j| > 0 && LowerWord(w)
    ensures MapCase(j + " " + w, false) == MapCase(j, false) + " " + Capitalize(w)
  {
    MapCaseAfterSeparator(j + " ", w);
    MapCaseSpace(j);
    MapCaseLowerWord(w);
  }

  /** Joining two or more words puts the last one after the others. */
  lemma JoinLast(ws: seq<string>, sep: string)
    requires |ws| > 1
    ensures Join(ws, sep) == Join(ws[..|ws| - 1], sep) + sep + ws[|ws| - 1]
  {
  }

  /** Capitalizing commutes with taking a prefix of the words. */
  lemma CapitalizeEachPrefix(ws: seq<string>, n: nat)
    requires n <= |ws|
    ensures CapitalizeEach(ws[..n]) == CapitalizeEach(ws)[..n]
  {
  }

  /** Spaced lower-case words make non-empty text. */
  lemma JoinLowerWordsNonEmpty(ws: seq<string>)
    requires |ws| > 0 && LowerWords(ws)
    ensures |Join(ws, " ")| > 0
  {
    if |ws| > 1 {
      JoinLast(ws, " ");
    }
  }

  /** Pascal-mapping spaced words capitalizes each word and keeps the spaces. */
  lemma {:induction false} MapCaseSpacedWords(ws: seq<string>)
    requires LowerWords(ws)
    ensures MapCase(Join(ws, " "), false) == Join(CapitalizeEach(ws), " ")
    decreases |ws|
  {
    if |ws| == 1 {
      MapCaseLowerWord(ws[0]);
    } else if |ws| > 1 {
      var n := |ws| - 1;
      var init := ws[..n];
      assert LowerWords(init);
      MapCaseSpacedWords(init);
      JoinLast(ws, " ");
      JoinLowerWordsNonEmpty(init);
      MapCaseJoinStep(Join(init, " "), ws[n]);
      CapitalizeEachPrefix(ws, n);
      JoinLast(CapitalizeEach(ws), " ");
    }
  }

  lemma {:induction false} ConcatSnoc(ts: seq<string>, t: string)
    ensures Concat(ts + [t]) == Concat(ts) + t
    decreases |ts|
  {
    if ts == [] {
      assert [] + [t] == [t];
      assert Concat([t]) == t + Concat([]);
    } else {
      assert (ts + [t])[1..] == ts[1..] + [t];
      ConcatSnoc(ts[1..], t);
      AppendAssoc(ts[0], Concat(ts[1..]), t);
    }
  }

  /** Deleting the spaces between words that hold none concatenates them. */
  lemma {:induction false} DeleteSpacesJoin(ts: seq<string>)
    requires forall i :: 0 <= i < |ts| ==> ' ' !in ts[i]
    ensures Delete(Join(ts, " "), ' ') == Concat(ts)
    decreases |ts|
  {
    if |ts| == 1 {
      DeleteAbsent(ts[0], ' ');
      assert Concat(ts) == ts[0] + Concat([]);
    } else if |ts| > 1 {
      var n := |ts| - 1;
      var j := Join(ts[..n], " ");
      DeleteSpacesJoin(ts[..n]);
      DeleteAppend(j + " ", ts[n], ' ');
      DeleteAppend(j, " ", ' ');
      assert Delete(" ", ' ') == "";
      DeleteAbsent(ts[n], ' ');
      ConcatSnoc(ts[..n], ts[n]);
      assert ts[..n] + [ts[n]] == ts;
    }
  }

  /** Deleting a char that no word holds leaves their concatenation. */
  lemma {:induction false} DeleteAbsentConcat(ts: seq<string>, c: char)
    requires forall i :: 0 <= i < |ts| ==> c !in ts[i]
    ensures Delete(Concat(ts), c) == Concat(ts)
    decreases |ts|
  {
    if ts != [] {
      DeleteAbsentConcat(ts[1..], c);
      DeleteAppend(ts[0], Concat(ts[1..]), c);
      DeleteAbsent(ts[0], c);
    }
  }

  lemma CapitalizedIsTitleWord(w: string)
    requires LowerWord(w)
    ensures TitleWord(Capitalize(w)) && ' ' !in Capitalize(w) && '_' !in Capitalize(w)
  {
  }

  /** Pascal-casing spaced words concatenates the capitalized words. */
  lemma RecaseSpacedWords(ws: seq<string>)
    requires LowerWords(ws)
    ensures Recase(Join(ws, " "), false) == Concat(CapitalizeEach(ws))
  {
    var ts := CapitalizeEach(ws);
    forall i | 0 <= i < |ts| ensures TitleWord(ts[i]) && ' ' !in ts[i] && '_' !in ts[i] {
      CapitalizedIsTitleWord(ws[i]);
    }
    MapCaseSpacedWords(ws);
    DeleteSpacesJoin(ts);
    DeleteAbsentConcat(ts, '_');
  }

  // ---- the decomposer side ----

  /** No initialism starts at a title word: its second char is no break. */
  lemma TitleWordNoInitialism(s: string, p: nat, t: string, rest: string, table: set<string>)
    requires WellShaped(table)
    requires TitleWord(t) && p <= |s| && s[p..] == t + rest
    ensures Initialism(s[p..], table) == ""
  {
    assert !IsWordBreak(s[p..], 1) by {
      assert s[p..][1] == t[1];
    }
    InitialismAtFirstBreak(s[p..], table);
  }

  /** After the capital of a title word, the next break is where the next
      capital (or the end) is. */
  lemma TitleWordNextBreak(s: string, p: nat, t: string, rest: string)
    requires TitleWord(t) && p <= |s| && s[p..] == t + rest
    requires rest == [] || IsUpper(rest[0])
    ensures p + |t| <= |s| && NextBreak(s, p + 1) == p + |t|
  {
    var q := p + |t|;
    forall m | p + 1 <= m < q
      ensures !IsWordBreak(s, m)
    {
      assert s[m] == s[p..][m - p] == t[m - p];
    }
    if q < |s| {
      assert s[q] == s[p..][|t|] == rest[0];
    }
    NextBreakUnique(s, p + 1, q);
  }

  /** Where the title word and the rest sit in `s`. */
  lemma TitleWordSlices(s: string, p: nat, t: string, rest: string)
    requires p <= |s| && s[p..] == t + rest
    ensures p + |t| <= |s| && s[p..p + |t|] == t && s[p + |t|..] == rest
  {
    assert s[p..][..|t|] == t && s[p..][|t|..] == rest;
    SliceOfSlice(s, p, |t|);
  }

  /** So the decomposer's cut at `p` falls right after the title word. */
  lemma TitleWordCutAt(s: string, p: nat, t: string, rest: string, table: set<string>)
    requires WellShaped(table)
    requires TitleWord(t) && p <= |s| && s[p..] == t + rest
    requires rest == [] || IsUpper(rest[0])
    ensures p < |s| && CutAt(s, p, table) == p + |t|
  {
    TitleWordNoInitialism(s, p, t, rest, table);
    TitleWordNextBreak(s, p, t, rest);
  }

  /** Concatenated title words start with a capital, and the words after
      the first are title words too. */
  lemma ConcatTitleWords(ts: seq<string>)
    requires TitleWords(ts) && |ts| > 0
    ensures Concat(ts) == ts[0] + Concat(ts[1..])
    ensures TitleWords(ts[1..])
    ensures var rest := Concat(ts[1..]); rest == [] || IsUpper(rest[0])
  {
    var tail := ts[1..];
    assert forall i :: 0 <= i < |tail| ==> tail[i] == ts[i + 1];
    if |tail| > 0 {
      assert Concat(tail) == tail[0] + Concat(tail[1..]);
      assert TitleWord(tail[0]);
    }
  }

  /** The words after the first tile the text after it. */
  lemma TitleWordsTail(s: string, p: nat, ts: seq<string>)
    requires p <= |s| && s[p..] == Concat(ts) && |ts| > 0 && TitleWords(ts)
    ensures p + |ts[0]| <= |s| && s[p + |ts[0]|..] == Concat(ts[1..]) && TitleWords(ts[1..])
  {
    ConcatTitleWords(ts);
    TitleWordSlices(s, p, ts[0], Concat(ts[1..]));
  }

  /** The first of concatenated title words is the first word cut. */
  lemma TitleWordsCut(s: string, p: nat, ts: seq<string>, table: set<string>)
    requires WellShaped(table)
    requires p <= |s| && s[p..] == Concat(ts) && |ts| > 0 && TitleWords(ts)
    ensures p < |s| && CutAt(s, p, table) == p + |ts[0]| && s[p..p + |ts[0]|] == ts[0]
  {
    var rest := Concat(ts[1..]);
    ConcatTitleWords(ts);
    TitleWordSlices(s, p, ts[0], rest);
    TitleWordCutAt(s, p, ts[0], rest, table);
  }

  /** Nothing is left to cut at the end. */
  lemma WordsFromEnd(s: string, p: nat, table: set<string>)
    requires p <= |s| && s[p..] == Concat([])
    ensures WordsFrom(s, p, table) == []
  {
    assert |s[p..]| == 0;
  }

  /** The decomposer cuts concatenated title words back into those words. */
  lemma {:induction false} WordsOfTitleWords(s: string, p: nat, ts: seq<string>, table: set<string>)
    requires WellShaped(table)
    requires p <= |s| && s[p..] == Concat(ts) && TitleWords(ts)
    ensures WordsFrom(s, p, table) == ts
    decreases |ts|
  {
    if ts == [] {
      WordsFromEnd(s, p, table);
    } else {
      var q := p + |ts[0]|;
      TitleWordsTail(s, p, ts);
      TitleWordsCut(s, p, ts, table);
      WordsOfTitleWords(s, q, ts[1..], table);
      WordsFromCons(s, p, q, ts, table);
    }
  }

  /** Lower-casing a capitalized lower-case word gives the word back. */
  lemma LowerCapitalize(w: string)
    requires LowerWord(w)
    ensures Lower(Capitalize(w)) == w
  {
    assert forall j :: 0 <= j < |w| ==> Lower(Capitalize(w))[j] == w[j];
  }

  /** So lower-casing each capitalized word gives the words back. */
  lemma LowerCapitalized(ws: seq<string>)
    requires LowerWords(ws)
    ensures LowerEach(CapitalizeEach(ws)) == ws
  {
    forall i | 0 <= i < |ws| ensures Lower(Capitalize(ws[i])) == ws[i] {
      LowerCapitalize(ws[i]);
    }
  }

  /** On lower-case words of two or more letters separated by single spaces,
      decomposing the Pascal-cased text gives its snake_case. */
  lemma PascalThenDecomposeIsSnake(ws: seq<string>)
    requires LowerWords(ws)
    ensures Decomposed(Recase(Join(ws, " "), false)) == SnakeCase(Join(ws, " "))
  {
    var ts := CapitalizeEach(ws);
    RecaseSpacedWords(ws);
    forall i | 0 <= i < |ts| ensures TitleWord(ts[i]) {
      CapitalizedIsTitleWord(ws[i]);
    }
    var s := Concat(ts);
    assert s[0..] == s;
    CommonInitialismsWellShaped();
    WordsOfTitleWords(s, 0, ts, CommonInitialisms);
    LowerCapitalized(ws);
    SnakeCaseSpacedWords(ws);
  }
}
