/** The library's test vectors (utils_test.go) and a few further inputs
    that show how the code behaves at its edges, proved about the model.
    Each vector takes its input as a parameter `s` fixed by `requires`, which
    keeps the verifier from evaluating whole pipelines on literals at once;
    the steps are proved one small lemma at a time. */
module Vectors {
  import opened Runes
  import opened Text
  import opened Initialisms
  import opened Decompose
  import opened Casing

  // ---- helpers for evaluating the decomposer ----

  /** No initialism is found at `u` when its second char is not a break. */
  lemma NoInitialism(u: string)
    requires |u| < 2 || !IsWordBreak(u, 1)
    ensures Initialism(u, CommonInitialisms) == ""
  {
    CommonInitialismsWellShaped();
    InitialismAtFirstBreak(u, CommonInitialisms);
  }

  /** No table entry prefixes `s`. */
  lemma NoTableEntry(s: string)
    requires 1 <= |s| ==> s[..1] !in CommonInitialisms
    requires 2 <= |s| ==> s[..2] !in CommonInitialisms
    requires 3 <= |s| ==> s[..3] !in CommonInitialisms
    requires 4 <= |s| ==> s[..4] !in CommonInitialisms
    requires 5 <= |s| ==> s[..5] !in CommonInitialisms
    ensures LongestTablePrefix(s, 5, CommonInitialisms) == 0
  {
  }

  /** A word ends where `CutAt` says. */
  lemma Cut(s: string, p: nat, q: nat)
    requires p < |s| && CutAt(s, p, CommonInitialisms) == q
    ensures WordsFrom(s, p, CommonInitialisms) == [s[p..q]] + WordsFrom(s, q, CommonInitialisms)
  {
  }

  /** A plain word: no initialism at `p`, so the word runs to the next break `q`. */
  lemma PlainWord(s: string, p: nat, q: nat)
    requires p < q <= |s|
    requires p + 1 < |s| ==> !IsWordBreak(s, p + 1)
    requires forall m :: p + 1 <= m < q ==> !IsWordBreak(s, m)
    requires q < |s| ==> IsWordBreak(s, q)
    ensures WordsFrom(s, p, CommonInitialisms) == [s[p..q]] + WordsFrom(s, q, CommonInitialisms)
  {
    SuffixBreaks(s, p);
    NoInitialism(s[p..]);
    NextBreakUnique(s, p + 1, q);
    Cut(s, p, q);
  }

  lemma ListTwoThree<T>(a: T, b: T, c: T, e: T, f: T)
    ensures [a, b] + [c, e, f] == [a, b, c, e, f]
  {
  }

  lemma JoinSnoc(ws: seq<string>, w: string, sep: string)
    requires ws != []
    ensures Join(ws + [w], sep) == Join(ws, sep) + sep + w
  {
    assert (ws + [w])[..|ws|] == ws;
  }

  // ---- PascalCaseToSnakeCase, utils_test.go:114-129 ----

  lemma FactsThisIsATest(s: string)
    requires s == "ThisIsATest"
    ensures |s| == 11
    ensures forall m :: 0 <= m < 11 ==> (IsWordBreak(s, m) <==> m == 0 || m == 4 || m == 6 || m == 7)
    ensures s[0..4] == "This" && s[4..6] == "Is" && s[6..7] == "A" && s[7..11] == "Test" && s[6..] == "ATest"
  {
  }

  lemma WordsThis(s: string)
    requires s == "ThisIsATest"
    ensures WordsFrom(s, 0, CommonInitialisms) == [s[0..4]] + WordsFrom(s, 4, CommonInitialisms)
  {
    FactsThisIsATest(s);
    PlainWord(s, 0, 4);
  }

  lemma WordsIs(s: string)
    requires s == "ThisIsATest"
    ensures WordsFrom(s, 4, CommonInitialisms) == [s[4..6]] + WordsFrom(s, 6, CommonInitialisms)
  {
    FactsThisIsATest(s);
    PlainWord(s, 4, 6);
  }

  lemma WordsThisIs(s: string)
    requires s == "ThisIsATest"
    ensures WordsFrom(s, 0, CommonInitialisms) == [s[0..4], s[4..6]] + WordsFrom(s, 6, CommonInitialisms)
  {
    WordsThis(s);
    WordsIs(s);
    AppendAssoc([s[0..4]], [s[4..6]], WordsFrom(s, 6, CommonInitialisms));
  }

  lemma NoTableEntryATest(u: string)
    requires u == "ATest"
    ensures LongestTablePrefix(u, 5, CommonInitialisms) == 0
  {
    assert u[..1] == "A" && u[..2] == "AT" && u[..3] == "ATe" && u[..4] == "ATes" && u[..5] == "ATest";
    NoTableEntry(u);
  }

  /** "ATest": no table entry, and only two leading breaks. */
  lemma NoInitialismATest(u: string)
    requires u == "ATest"
    ensures Initialism(u, CommonInitialisms) == ""
  {
    NoTableEntryATest(u);
    assert IsWordBreak(u, 0) && IsWordBreak(u, 1) && !IsWordBreak(u, 2);
    assert BreakRunFrom(u, 0) == 2;
  }

  lemma WordsATest(s: string)
    requires s == "ThisIsATest"
    ensures WordsFrom(s, 6, CommonInitialisms) == ["A", "Test"]
  {
    FactsThisIsATest(s);
    assert CutAt(s, 6, CommonInitialisms) == 7 by {
      NoInitialismATest(s[6..]);
      NextBreakUnique(s, 7, 7);
    }
    Cut(s, 6, 7);
    PlainWord(s, 7, 11);
  }

  lemma DecomposeThisIsATest(s: string)
    requires s == "ThisIsATest"
    ensures Decomposed(s) == "this_is_a_test"
  {
    DecomposedIsLoweredJoin(s);
    FactsThisIsATest(s);
    WordsThisIs(s);
    WordsATest(s);
    assert Words(s, CommonInitialisms) == ["This", "Is", "A", "Test"];
    JoinFour("This", "Is", "A", "Test", "_");
    LowerThisIsATest();
  }

  lemma JoinFour(a: string, b: string, c: string, e: string, sep: string)
    ensures Join([a, b, c, e], sep) == a + sep + b + sep + c + sep + e
  {
    JoinSnoc([a], b, sep);
    JoinSnoc([a, b], c, sep);
    JoinSnoc([a, b, c], e, sep);
    assert [a] + [b] == [a, b] && [a, b] + [c] == [a, b, c] && [a, b, c] + [e] == [a, b, c, e];
  }

  lemma LowerThisIsATest()
    ensures Lower("This" + "_" + "Is" + "_" + "A" + "_" + "Test") == "this_is_a_test"
  {
    assert "This" + "_" + "Is" + "_" + "A" + "_" + "Test" == "This_Is_A_Test";
  }

  lemma JoinTwo(a: string, b: string, sep: string)
    ensures Join([a, b], sep) == a + sep + b
  {
    JoinSnoc([a], b, sep);
    assert [a] + [b] == [a, b];
  }

  /** A text of two words decomposes into their lowered join. */
  lemma DecomposeTwo(s: string, a: string, b: string)
    requires Words(s, CommonInitialisms) == [a, b]
    ensures Decomposed(s) == Lower(a + "_" + b)
  {
    DecomposedIsLoweredJoin(s);
    JoinTwo(a, b, "_");
  }

  lemma JoinFive(a: string, b: string, c: string, e: string, f: string, sep: string)
    ensures Join([a, b, c, e, f], sep) == a + sep + b + sep + c + sep + e + sep + f
  {
    JoinFour(a, b, c, e, sep);
    JoinSnoc([a, b, c, e], f, sep);
    assert [a, b, c, e] + [f] == [a, b, c, e, f];
  }

  lemma FactsHTTPBuffer(s: string)
    requires s == "HTTPBuffer"
    ensures |s| == 10 && s[0..] == s
    ensures forall m :: 0 <= m < 10 ==> (IsWordBreak(s, m) <==> m <= 4)
    ensures s[0..4] == "HTTP" && s[4..10] == "Buffer"
  {
  }

  lemma InitialismHTTPBuffer(u: string)
    requires u == "HTTPBuffer"
    ensures Initialism(u, CommonInitialisms) == "HTTP"
  {
    assert u[..5] == "HTTPB" && u[..4] == "HTTP";
  }

  lemma WordsHTTPBuffer(s: string)
    requires s == "HTTPBuffer"
    ensures Words(s, CommonInitialisms) == ["HTTP", "Buffer"]
  {
    FactsHTTPBuffer(s);
    assert CutAt(s, 0, CommonInitialisms) == 4 by {
      InitialismHTTPBuffer(s);
    }
    Cut(s, 0, 4);
    PlainWord(s, 4, 10);
  }

  lemma DecomposeHTTPBuffer(s: string)
    requires s == "HTTPBuffer"
    ensures Decomposed(s) == "http_buffer"
  {
    WordsHTTPBuffer(s);
    DecomposeTwo(s, "HTTP", "Buffer");
    assert Lower("HTTP" + "_" + "Buffer") == "http_buffer";
  }

  lemma BreaksDE002(s: string)
    requires s == "DE002PrimaryAccountNumber"
    ensures |s| == 25 && s[0..] == s
    ensures forall m :: 0 <= m < 25 ==>
      (IsWordBreak(s, m) <==> m <= 2 || m == 5 || m == 12 || m == 19)
  {
  }

  lemma SlicesDE002Head(s: string)
    requires s == "DE002PrimaryAccountNumber"
    ensures s[0..2] == "DE" && s[2..5] == "002"
  {
    assert s[2] == '0' && s[3] == '0' && s[4] == '2';
  }

  lemma SlicesDE002Tail(s: string)
    requires s == "DE002PrimaryAccountNumber"
    ensures s[5..12] == "Primary" && s[12..19] == "Account" && s[19..25] == "Number"
  {
  }

  lemma SlicesDE002(s: string)
    requires s == "DE002PrimaryAccountNumber"
    ensures s[0..2] == "DE" && s[2..5] == "002" && s[5..12] == "Primary"
    ensures s[12..19] == "Account" && s[19..25] == "Number"
  {
    SlicesDE002Head(s);
    SlicesDE002Tail(s);
  }

  lemma NoTableEntryDE002(u: string)
    requires u == "DE002PrimaryAccountNumber"
    ensures LongestTablePrefix(u, 5, CommonInitialisms) == 0
  {
    assert u[..1] == "D" && u[..2] == "DE" && u[..3] == "DE0" && u[..4] == "DE00" && u[..5] == "DE002";
    NoTableEntry(u);
  }

  /** The table has no entry here, but "D", "E" and "0" are three leading
      breaks, so the heuristic returns "DE". */
  lemma InitialismDE002(u: string)
    requires u == "DE002PrimaryAccountNumber"
    ensures Initialism(u, CommonInitialisms) == "DE"
  {
    NoTableEntryDE002(u);
    assert IsWordBreak(u, 0) && IsWordBreak(u, 1) && IsWordBreak(u, 2) && !IsWordBreak(u, 3);
    assert BreakRunFrom(u, 0) == 3;
  }

  lemma CutDE002(s: string)
    requires s == "DE002PrimaryAccountNumber"
    ensures CutAt(s, 0, CommonInitialisms) == 2
  {
    assert s[0..] == s;
    InitialismDE002(s);
  }

  lemma WordsDE002Head(s: string)
    requires s == "DE002PrimaryAccountNumber"
    ensures WordsFrom(s, 0, CommonInitialisms) == [s[0..2], s[2..5]] + WordsFrom(s, 5, CommonInitialisms)
  {
    CutDE002(s);
    Cut(s, 0, 2);
    BreaksDE002(s);
    PlainWord(s, 2, 5);
    AppendAssoc([s[0..2]], [s[2..5]], WordsFrom(s, 5, CommonInitialisms));
  }

  lemma WordsDE002Tail(s: string)
    requires s == "DE002PrimaryAccountNumber"
    ensures WordsFrom(s, 5, CommonInitialisms) == [s[5..12], s[12..19], s[19..25]]
  {
    BreaksDE002(s);
    PlainWord(s, 5, 12);
    WordsDE002Last(s);
  }

  lemma WordsDE002Last(s: string)
    requires s == "DE002PrimaryAccountNumber"
    ensures WordsFrom(s, 12, CommonInitialisms) == [s[12..19], s[19..25]]
  {
    BreaksDE002(s);
    PlainWord(s, 12, 19);
    PlainWord(s, 19, 25);
  }

  lemma DecomposeDE002(s: string)
    requires s == "DE002PrimaryAccountNumber"
    ensures Decomposed(s) == "de_002_primary_account_number"
  {
    DecomposedIsLoweredJoin(s);
    WordsDE002Head(s);
    WordsDE002Tail(s);
    SlicesDE002(s);
    ListTwoThree(s[0..2], s[2..5], s[5..12], s[12..19], s[19..25]);
    JoinFive("DE", "002", "Primary", "Account", "Number", "_");
    LowerDE002();
  }

  lemma LowerDE002()
    ensures Lower("DE" + "_" + "002" + "_" + "Primary" + "_" + "Account" + "_" + "Number")
         == "de_002_primary_account_number"
  {
    LowerAppend("DE" + "_" + "002" + "_" + "Primary" + "_", "Account" + "_" + "Number");
    LowerDE002Head();
    assert Lower("Account" + "_" + "Number") == "account_number";
  }

  lemma LowerDE002Head()
    ensures Lower("DE" + "_" + "002" + "_" + "Primary" + "_") == "de_002_primary_"
  {
  }

  lemma BreaksFABScott(s: string)
    requires s == "FABScott"
    ensures |s| == 8 && s[0..] == s
    ensures forall m :: 0 <= m < 8 ==> (IsWordBreak(s, m) <==> m <= 3)
    ensures s[0..3] == "FAB" && s[3..8] == "Scott"
  {
  }

  lemma NoTableEntryFABScott(u: string)
    requires u == "FABScott"
    ensures LongestTablePrefix(u, 5, CommonInitialisms) == 0
  {
    assert u[..1] == "F" && u[..2] == "FA" && u[..3] == "FAB" && u[..4] == "FABS" && u[..5] == "FABSc";
    NoTableEntry(u);
  }

  /** No entry begins with 'F'; four leading breaks give "FAB". */
  lemma InitialismFABScott(u: string)
    requires u == "FABScott"
    ensures Initialism(u, CommonInitialisms) == "FAB"
  {
    NoTableEntryFABScott(u);
    assert IsWordBreak(u, 0) && IsWordBreak(u, 1) && IsWordBreak(u, 2) && IsWordBreak(u, 3) && !IsWordBreak(u, 4);
    assert BreakRunFrom(u, 0) == 4;
  }

  lemma WordsFABScott(s: string)
    requires s == "FABScott"
    ensures Words(s, CommonInitialisms) == ["FAB", "Scott"]
  {
    BreaksFABScott(s);
    assert CutAt(s, 0, CommonInitialisms) == 3 by {
      InitialismFABScott(s);
    }
    Cut(s, 0, 3);
    PlainWord(s, 3, 8);
  }

  lemma DecomposeFABScott(s: string)
    requires s == "FABScott"
    ensures Decomposed(s) == "fab_scott"
  {
    WordsFABScott(s);
    DecomposeTwo(s, "FAB", "Scott");
    assert Lower("FAB" + "_" + "Scott") == "fab_scott";
  }

  lemma DecomposeEmpty()
    ensures Decomposed("") == ""
  {
  }

  // ---- edges of the decomposer ----

  lemma BreaksHTTPServer(s: string)
    requires s == "HTTPServer"
    ensures |s| == 10 && s[0..] == s
    ensures forall m :: 0 <= m < 10 ==> (IsWordBreak(s, m) <==> m <= 4)
    ensures s[0..5] == "HTTPS" && s[5..10] == "erver"
  {
  }

  /** The longest table entry wins: "HTTPS" rather than "HTTP". */
  lemma InitialismHTTPServer(u: string)
    requires u == "HTTPServer"
    ensures Initialism(u, CommonInitialisms) == "HTTPS"
  {
    assert u[..5] == "HTTPS";
  }

  lemma WordsHTTPServer(s: string)
    requires s == "HTTPServer"
    ensures Words(s, CommonInitialisms) == ["HTTPS", "erver"]
  {
    BreaksHTTPServer(s);
    assert CutAt(s, 0, CommonInitialisms) == 5 by {
      InitialismHTTPServer(s);
    }
    Cut(s, 0, 5);
    PlainWord(s, 5, 10);
  }

  /** So the "S" of "Server" is taken into the initialism. */
  lemma DecomposeHTTPServer(s: string)
    requires s == "HTTPServer"
    ensures Decomposed(s) == "https_erver"
  {
    WordsHTTPServer(s);
    DecomposeTwo(s, "HTTPS", "erver");
    assert Lower("HTTPS" + "_" + "erver") == "https_erver";
  }

  lemma BreaksABC(s: string)
    requires s == "ABC"
    ensures |s| == 3 && s[0..] == s && s[0..2] == "AB" && s[2..3] == "C"
    ensures IsWordBreak(s, 0) && IsWordBreak(s, 1) && IsWordBreak(s, 2)
  {
  }

  lemma NoTableEntryABC(u: string)
    requires u == "ABC"
    ensures LongestTablePrefix(u, 5, CommonInitialisms) == 0
  {
    assert u[..1] == "A" && u[..2] == "AB" && u[..3] == "ABC";
    NoTableEntry(u);
  }

  lemma WordsABC(s: string)
    requires s == "ABC"
    ensures Words(s, CommonInitialisms) == ["AB", "C"]
  {
    BreaksABC(s);
    assert CutAt(s, 0, CommonInitialisms) == 2 by {
      NoTableEntryABC(s);
      assert BreakRunFrom(s, 0) == 3;
    }
    Cut(s, 0, 2);
    PlainWord(s, 2, 3);
  }

  /** Three leading breaks and no entry: the heuristic keeps the last
      capital back as a word of its own. */
  lemma DecomposeABC(s: string)
    requires s == "ABC"
    ensures Decomposed(s) == "ab_c"
  {
    WordsABC(s);
    DecomposeTwo(s, "AB", "C");
    assert Lower("AB" + "_" + "C") == "ab_c";
  }

  // ---- SnakeCase, utils_test.go:90-97 ----

  lemma SnakeCaseVectors()
    ensures SnakeCase("this is a test") == "this_is_a_test"
    ensures SnakeCase("This is a test") == "this_is_a_test"
  {
  }

  // ---- PascalCase and FieldName, utils_test.go:14-21 and 71-72 ----

  lemma MapThisIsATest(s: string)
    requires s == "this is a test"
    ensures MapCase(s, false) == "This Is A Test"
  {
  }

  lemma DeleteSpacesThisIsATest(m: string)
    requires m == "This Is A Test"
    ensures Delete(m, ' ') == "ThisIsATest"
  {
    assert m == "This" + [' '] + ("Is" + [' '] + ("A" + [' '] + "Test"));
    DeleteAfter("This", "Is" + [' '] + ("A" + [' '] + "Test"), ' ');
    DeleteAfter("Is", "A" + [' '] + "Test", ' ');
    DeleteAfter("A", "Test", ' ');
    DeleteAbsent("Test", ' ');
    assert "This" + ("Is" + ("A" + "Test")) == "ThisIsATest";
  }

  lemma PascalThisIsATest(s: string)
    requires s == "this is a test"
    ensures Recase(s, false) == "ThisIsATest"
  {
    MapThisIsATest(s);
    var m := MapCase(s, false);
    DeleteSpacesThisIsATest(m);
    DeleteAbsent(Delete(m, ' '), '_');
  }

  lemma FieldNameThisIsATest(s: string)
    requires s == "this is a test"
    ensures Filter(Recase(s, false), IsFieldChar) == "ThisIsATest"
  {
    PascalThisIsATest(s);
    FilterKeepsAll(Recase(s, false), IsFieldChar);
  }

  lemma MapThisIsASlashTest(s: string)
    requires s == "this is a/test"
    ensures MapCase(s, false) == "This Is A/Test"
  {
  }

  lemma DeleteSpacesThisIsASlashTest(m: string)
    requires m == "This Is A/Test"
    ensures Delete(m, ' ') == "ThisIsA" + ['/'] + "Test"
  {
    assert m == "This" + [' '] + ("Is" + [' '] + "A/Test");
    DeleteAfter("This", "Is" + [' '] + "A/Test", ' ');
    DeleteAfter("Is", "A/Test", ' ');
    DeleteAbsent("A/Test", ' ');
    assert "This" + ("Is" + "A/Test") == "ThisIsA" + ['/'] + "Test";
  }

  lemma RecaseThisIsASlashTest(s: string)
    requires s == "this is a/test"
    ensures Recase(s, false) == "ThisIsA" + ['/'] + "Test"
  {
    MapThisIsASlashTest(s);
    var m := MapCase(s, false);
    DeleteSpacesThisIsASlashTest(m);
    DeleteAbsent(Delete(m, ' '), '_');
  }

  lemma FieldNameThisIsASlashTest(s: string)
    requires s == "this is a/test"
    ensures Filter(Recase(s, false), IsFieldChar) == "ThisIsATest"
  {
    RecaseThisIsASlashTest(s);
    FilterAfter("ThisIsA", '/', "Test", IsFieldChar);
    FilterKeepsAll("Test", IsFieldChar);
    assert "ThisIsA" + "Test" == "ThisIsATest";
  }

  /** A leading space spends the first-rune rule, so camel case comes out
      with a capital. */
  lemma CamelLeadingSpace(s: string)
    requires s == " ab"
    ensures Recase(s, true) == "Ab"
  {
    var m := MapCase(s, true);
    assert m == [] + [' '] + "Ab";
    DeleteAfter([], "Ab", ' ');
    DeleteAbsent("Ab", ' ');
    DeleteAbsent(Delete(m, ' '), '_');
  }

  /** A field name that starts with a digit. */
  lemma FieldNameFirst(s: string)
    requires s == "1st"
    ensures Filter(Recase(s, false), IsFieldChar) == "1st"
  {
    assert MapCase(s, false) == "1st";
    DeleteAbsent("1st", ' ');
    DeleteAbsent("1st", '_');
    FilterKeepsAll("1st", IsFieldChar);
  }

  // ---- JSONFieldName, utils_test.go:38-53 ----

  lemma NoPairsThisIsATest(t: string)
    requires t == "this_is_a_test"
    ensures NoDoubleUnderscore(t) && t[|t| - 1] != '_'
  {
  }

  lemma JSONFieldNameThisIsATest(s: string)
    requires s == "this is a test"
    ensures JSONFieldName(s) == "this_is_a_test"
  {
    assert SnakeCase(s) == "this_is_a_test";
    NoPairsThisIsATest(SnakeCase(s));
    JSONFieldNameIsSnake(s);
  }

  lemma JSONFieldNameThisIsASlashTest(s: string)
    requires s == "this is a/test"
    ensures JSONFieldName(s) == "this_is_a_test"
  {
    assert SnakeCase(s) == "this_is_a_test";
    NoPairsThisIsATest(SnakeCase(s));
    JSONFieldNameIsSnake(s);
  }

  lemma SplitDoubleUnderscore(t: string)
    requires t == "this_is__a_test"
    ensures t == t[..7] + (Underscores(2) + t[9..])
    ensures NoDoubleUnderscore(t[..7]) && t[6] != '_'
    ensures t[9..] == [] || t[9] != '_'
    ensures NoDoubleUnderscore(t[9..])
    ensures t[..7] + (Underscores(1) + t[9..]) == "this_is_a_test"
  {
    assert t[..7] == "this_is" && t[9..] == "a_test";
  }

  lemma ReplaceDoubleUnderscore(t: string)
    requires t == "this_is__a_test"
    ensures ReplacePairs(t) == "this_is_a_test"
  {
    SplitDoubleUnderscore(t);
    var (a, rest) := (t[..7], t[9..]);
    ReplacePairsAppend(a, Underscores(2) + rest);
    ReplacePairsRun(2, rest);
    ReplacePairsNoPairs(rest);
  }

  /** Two separators in a row give "__", which the replace halves. */
  lemma JSONFieldNameDoubleSpace(s: string)
    requires s == "this is  a/test"
    ensures JSONFieldName(s) == "this_is_a_test"
  {
    var t := SnakeCase(s);
    assert t == "this_is__a_test";
    JSONFieldNameOfSnake(s);
    ReplaceDoubleUnderscore(t);
  }

  lemma TrailingUnderscore(t: string)
    requires t == "this_is_a_test_"
    ensures |t| > 0 && t[|t| - 1] == '_' && t[..|t| - 1] == "this_is_a_test"
  {
  }

  /** A trailing separator gives a trailing '_', which the regexp drops. */
  lemma JSONFieldNameTrailingSpace(s: string)
    requires s == "this is a test "
    ensures JSONFieldName(s) == "this_is_a_test"
  {
    assert SnakeCase(s) == "this_is_a_test_";
    var t := SnakeCase(s);
    TrailingUnderscore(t);
    JSONFieldNameOfSnake(s);
    NoPairsThisIsATest(t[..|t| - 1]);
    ReplacePairsNoPairs(t[..|t| - 1]);
  }

  /** Only a final '_' is dropped: a leading one stays. */
  lemma JSONFieldNameLeadingUnderscore(s: string)
    requires s == "_a"
    ensures JSONFieldName(s) == "_a"
  {
    assert SnakeCase(s) == "_a";
    JSONFieldNameIsSnake(s);
  }

  /** The replace is one pass: three separators leave two underscores. */
  lemma JSONFieldNameThreeSpaces(s: string)
    requires s == "a   b"
    ensures JSONFieldName(s) == "a__b"
  {
    var t := SnakeCase(s);
    assert t == "a___b";
    JSONFieldNameOfSnake(s);
    var (a, rest) := (t[..1], t[4..]);
    assert t == a + (Underscores(3) + rest);
    ReplacePairsAppend(a, Underscores(3) + rest);
    ReplacePairsRun(3, rest);
    ReplacePairsNoPairs(rest);
    assert a + (Underscores(2) + rest) == "a__b";
  }

  // ---- PascalCase then PascalCaseToSnakeCase is not SnakeCase ----

  lemma RecaseABC(s: string)
    requires s == "a b c"
    ensures Recase(s, false) == "ABC"
  {
    assert MapCase(s, false) == "A" + [' '] + ("B" + [' '] + "C");
    DeleteAfter("A", "B" + [' '] + "C", ' ');
    DeleteAfter("B", "C", ' ');
    DeleteAbsent("C", ' ');
    assert "A" + ("B" + "C") == "ABC";
    DeleteAbsent("ABC", '_');
  }

  /** Snake-casing "a b c" gives "a_b_c", but Pascal-casing it and then
      decomposing gives "ab_c". */
  lemma PascalThenDecomposeABC(x: string)
    requires x == "a b c"
    ensures SnakeCase(x) == "a_b_c"
    ensures Decomposed(Recase(x, false)) == "ab_c"
  {
    RecaseABC(x);
    DecomposeABC(Recase(x, false));
  }

  /** So decomposing a Pascal-cased text does not in general give its
      snake_case. */
  lemma PascalThenDecomposeIsNotSnake()
    ensures exists x :: Decomposed(Recase(x, false)) != SnakeCase(x)
  {
    var x := "a b c";
    PascalThenDecomposeABC(x);
    assert "ab_c"[1] != "a_b_c"[1];
    assert Decomposed(Recase(x, false)) != SnakeCase(x);
  }

  /** A single-letter word does not by itself break the round trip: "a bc"
      Pascal-cases to "ABc", whose two leading breaks are too few for the
      heuristic, so the decomposer cuts it back into "A" and "Bc". */
  lemma RecaseABc(s: string)
    requires s == "a bc"
    ensures Recase(s, false) == "ABc"
  {
    assert MapCase(s, false) == "A" + [' '] + "Bc";
    DeleteAfter("A", "Bc", ' ');
    DeleteAbsent("Bc", ' ');
    DeleteAbsent("ABc", '_');
  }

  lemma WordsABc(s: string)
    requires s == "ABc"
    ensures Words(s, CommonInitialisms) == ["A", "Bc"]
  {
    assert s[0..] == s && s[0..1] == "A" && s[1..3] == "Bc";
    assert CutAt(s, 0, CommonInitialisms) == 1 by {
      assert s[..1] == "A" && s[..2] == "AB" && s[..3] == "ABc";
      NoTableEntry(s);
      assert IsWordBreak(s, 0) && IsWordBreak(s, 1) && !IsWordBreak(s, 2);
      assert BreakRunFrom(s, 0) == 2;
    }
    Cut(s, 0, 1);
    PlainWord(s, 1, 3);
  }

  lemma PascalThenDecomposeABc(x: string)
    requires x == "a bc"
    ensures SnakeCase(x) == "a_bc"
    ensures Decomposed(Recase(x, false)) == SnakeCase(x)
  {
    RecaseABc(x);
    var s := Recase(x, false);
    WordsABc(s);
    DecomposeTwo(s, "A", "Bc");
    assert Lower("A" + "_" + "Bc") == "a_bc";
  }

  /** Neighbouring single letters can also spell a table entry: "i d"
      Pascal-cases to "ID", which the decomposer keeps as one word. */
  lemma RecaseID(s: string)
    requires s == "i d"
    ensures Recase(s, false) == "ID"
  {
    assert MapCase(s, false) == "I" + [' '] + "D";
    DeleteAfter("I", "D", ' ');
    DeleteAbsent("D", ' ');
    DeleteAbsent("ID", '_');
  }

  lemma DecomposeID(s: string)
    requires s == "ID"
    ensures Decomposed(s) == "id"
  {
    assert s[..2] == "ID" && s[0..] == s && s[0..2] == s;
    assert LongestTablePrefix(s, 5, CommonInitialisms) == 2;
    assert CutAt(s, 0, CommonInitialisms) == 2;
    Cut(s, 0, 2);
    assert Words(s, CommonInitialisms) == [s];
    assert LowerEach([s]) == [Lower(s)];
    assert Lower(s) == "id";
  }

  lemma PascalThenDecomposeID(x: string)
    requires x == "i d"
    ensures SnakeCase(x) == "i_d"
    ensures Decomposed(Recase(x, false)) == "id"
  {
    RecaseID(x);
    DecomposeID(Recase(x, false));
  }
}
