/** The single-pass recasers of utils.go: `SnakeCase`, `camelAndPascalCase`
    with its entry points `CamelCase` and `PascalCase`, and the two
    post-filters `FieldName` and `JSONFieldName`. */
module Casing {
  import opened Runes
  import opened Text

  /** `isSeparator`: a char that is neither a letter nor a digit. */
  predicate IsSeparator(c: char)
  {
    !IsLetter(c) && !IsDigit(c)
  }

  /** Case mapping does not turn a separator into a word char or back. */
  lemma SeparatorUnderCaseMapping(c: char)
    ensures IsSeparator(ToLower(c)) == IsSeparator(c)
    ensures IsSeparator(ToTitle(c)) == IsSeparator(c)
    ensures IsSeparator(' ') && IsSeparator('_')
  {
    CaseMappingKeepsClass(c);
  }

  /** The chars a snake_case identifier is made of. */
  predicate IsSnakeChar(c: char)
  {
    c == '_' || IsLower(c) || IsDigit(c)
  }

  /** The chars `fieldNameRE` keeps: 'A'..'Z', 'a'..'z' and '0'..'9'. */
  predicate IsFieldChar(c: char)
  {
    IsLetter(c) || IsDigit(c)
  }

  /** The per-rune mapping of `SnakeCase`. */
  function SnakeRune(c: char): (d: char)
    ensures IsSnakeChar(d)
    ensures d == '_' <==> IsSeparator(c)
  {
    if IsSeparator(c) then '_' else ToLower(c)
  }

  /** `SnakeCase`: `strings.Map` of `SnakeRune` over the input. Position by
      position it has '_' exactly where the input has a separator and the
      lower-cased input char everywhere else, so it is made of snake chars
      only. */
  function SnakeCase(s: string): (r: string)
    ensures |r| == |s|
    ensures forall i :: 0 <= i < |s| ==>
      && (r[i] == '_' <==> IsSeparator(s[i]))
      && (!IsSeparator(s[i]) ==> r[i] == ToLower(s[i]))
      && IsSnakeChar(r[i])
  {
    seq(|s|, i requires 0 <= i < |s| => SnakeRune(s[i]))
  }

  /** Snake-casing a second time changes nothing. */
  lemma SnakeCaseIdempotent(s: string)
    ensures SnakeCase(SnakeCase(s)) == SnakeCase(s)
  {
    forall i | 0 <= i < |s| ensures SnakeCase(SnakeCase(s))[i] == SnakeCase(s)[i] {
      SeparatorUnderCaseMapping(s[i]);
      CaseMappingKeepsClass(s[i]);
    }
  }

  /** What the mapping closure of `camelAndPascalCase` returns for `c`, given
      the previous rune `prev` and whether `c` is the first rune. */
  function CaseRune(c: char, prev: char, isFirst: bool, isCamel: bool): char
  {
    if isFirst then (if isCamel then ToLower(c) else ToTitle(c))
    else if IsSeparator(prev) then ToTitle(c)
    else c
  }

  /** The `strings.Map` pass of `camelAndPascalCase` over `s`: the closure
      starts with `prev` a space and `isFirst` set, and after each rune `prev`
      is that input rune and `isFirst` is cleared. */
  function MapCase(s: string, isCamel: bool): (r: string)
    ensures |r| == |s|
  {
    seq(|s|, i requires 0 <= i < |s| =>
      if i == 0 then CaseRune(s[0], ' ', true, isCamel) else CaseRune(s[i], s[i - 1], false, isCamel))
  }

  /** The mapping position by position: the first rune is lower-cased
      (camel) or title-cased (Pascal), a rune after a separator is
      title-cased and every other rune is kept as it is. */
  lemma MapCaseAt(s: string, isCamel: bool)
    ensures forall i :: 0 <= i < |s| ==>
      MapCase(s, isCamel)[i] ==
        (if i == 0 then (if isCamel then ToLower(s[0]) else ToTitle(s[0]))
         else if IsSeparator(s[i - 1]) then ToTitle(s[i])
         else s[i])
  {
    forall i | 0 <= i < |s|
      ensures MapCase(s, isCamel)[i] ==
        (if i == 0 then (if isCamel then ToLower(s[0]) else ToTitle(s[0]))
         else if IsSeparator(s[i - 1]) then ToTitle(s[i])
         else s[i])
    {
    }
  }

  /** Mapping only changes case: lower-cased, the mapped text is the
      lower-cased input. */
  lemma MapCaseLower(s: string, isCamel: bool)
    ensures Lower(MapCase(s, isCamel)) == Lower(s)
  {
    var m := MapCase(s, isCamel);
    forall i | 0 <= i < |s|
      ensures Lower(m)[i] == Lower(s)[i]
    {
      MapCaseLowerAt(s, isCamel, i);
    }
  }

  /** The mapping only changes case, at each position. */
  lemma MapCaseLowerAt(s: string, isCamel: bool, i: nat)
    requires i < |s|
    ensures ToLower(MapCase(s, isCamel)[i]) == ToLower(s[i])
  {
    var prev := if i == 0 then ' ' else s[i - 1];
    assert MapCase(s, isCamel)[i] == CaseRune(s[i], prev, i == 0, isCamel);
    CaseMappingKeepsClass(s[i]);
  }

  /** What `camelAndPascalCase(s, isCamel)` returns: the mapped text with
      every ' ' and then every '_' deleted. */
  function Recase(s: string, isCamel: bool): (r: string)
    ensures ' ' !in r && '_' !in r
  {
    var m := MapCase(s, isCamel);
    DeleteMembers(m, ' ');
    DeleteMembers(Delete(m, ' '), '_');
    Delete(Delete(m, ' '), '_')
  }

  /** Deleting a char that is not a letter commutes with lower-casing. */
  lemma {:induction false} LowerDelete(s: string, c: char)
    requires !IsLetter(c)
    ensures Lower(Delete(s, c)) == Delete(Lower(s), c)
    decreases |s|
  {
    if s != [] {
      var head := if s[0] != c then [s[0]] else [];
      assert Delete(s, c) == head + Delete(s[1..], c);
      LowerDelete(s[1..], c);
      LowerAppend(head, Delete(s[1..], c));
      var t := Lower(s);
      assert t[1..] == Lower(s[1..]);
      assert Delete(t, c) == (if t[0] != c then [t[0]] else []) + Delete(t[1..], c);
    }
  }

  /** Recasing keeps the input's letters and digits in order and changes
      only their case; the spaces and underscores are gone. */
  lemma RecaseKeepsText(s: string, isCamel: bool)
    ensures Lower(Recase(s, isCamel)) == Delete(Delete(Lower(s), ' '), '_')
  {
    var m := MapCase(s, isCamel);
    LowerDelete(Delete(m, ' '), '_');
    LowerDelete(m, ' ');
    MapCaseLower(s, isCamel);
  }

  /** When the input starts with a letter or digit, so does the output, cased
      as the mode says. */
  lemma RecaseFirst(s: string, isCamel: bool)
    requires |s| > 0 && !IsSeparator(s[0])
    ensures |Recase(s, isCamel)| > 0
    ensures Recase(s, isCamel)[0] == if isCamel then ToLower(s[0]) else ToTitle(s[0])
  {
    var m := MapCase(s, isCamel);
    assert m[0] == CaseRune(s[0], ' ', true, isCamel);
    CaseMappingKeepsClass(s[0]);
    assert m == [m[0]] + m[1..];
    FilterAppend([m[0]], m[1..], d => d != ' ');
    var n := Delete(m, ' ');
    assert n == [m[0]] + Delete(m[1..], ' ');
    FilterAppend([m[0]], Delete(m[1..], ' '), d => d != '_');
  }

  /** A leading separator uses up the first-rune rule: the letter or digit
      after it is title-cased even in camel mode, so it opens the output. */
  lemma RecaseLeadingSeparator(sep: char, c: char, t: string, isCamel: bool)
    requires (sep == ' ' || sep == '_') && !IsSeparator(c)
    ensures |Recase([sep, c] + t, isCamel)| > 0
    ensures Recase([sep, c] + t, isCamel)[0] == ToTitle(c)
  {
    var m := MapCase([sep, c] + t, isCamel);
    var (x, u) := (ToTitle(c), m[2..]);
    assert m[0] == sep && m[1] == x;
    CaseMappingKeepsClass(c);
    assert m == [sep] + ([x] + u);
    if sep == ' ' {
      DeleteAfter([], [x] + u, ' ');
      DeleteKeepsHead(x, u, ' ');
    } else {
      DeleteKeepsHead('_', [x] + u, ' ');
      DeleteKeepsHead(x, u, ' ');
      DeleteAfter([], [x] + Delete(u, ' '), '_');
    }
    DeleteKeepsHead(x, Delete(u, ' '), '_');
  }

  /** `camelAndPascalCase`: the mapping closure run over the input with its
      state in `prev` and `isFirst`, then the two `strings.Replace` calls. */
  method CamelAndPascalCase(s: string, isCamel: bool) returns (r: string)
    ensures r == Recase(s, isCamel)
  {
    var prev := ' ';
    var isFirst := true;
    var mapped := "";
    for k := 0 to |s|
      invariant isFirst == (k == 0) && (k > 0 ==> prev == s[k - 1])
      invariant |mapped| == k && forall j :: 0 <= j < k ==> mapped[j] == MapCase(s, isCamel)[j]
    {
      var c := s[k];
      var d: char;
      if isFirst {
        isFirst := false;
        if isCamel {
          d := ToLower(c);
        } else {
          d := ToTitle(c);
        }
      } else if IsSeparator(prev) {
        d := ToTitle(c);
      } else {
        d := c;
      }
      // the deferred `prev = r`
      prev := c;
      mapped := mapped + [d];
    }
    assert mapped == MapCase(s, isCamel);
    r := Delete(mapped, ' ');
    r := Delete(r, '_');
  }

  /** `CamelCase`. */
  method CamelCase(s: string) returns (r: string)
    ensures r == Recase(s, true)
    ensures |s| > 0 && !IsSeparator(s[0]) ==> |r| > 0 && r[0] == ToLower(s[0])
  {
    r := CamelAndPascalCase(s, true);
    if |s| > 0 && !IsSeparator(s[0]) {
      RecaseFirst(s, true);
    }
  }

  /** `PascalCase`. */
  method PascalCase(s: string) returns (r: string)
    ensures r == Recase(s, false)
    ensures |s| > 0 && !IsSeparator(s[0]) ==> |r| > 0 && r[0] == ToTitle(s[0])
  {
    r := CamelAndPascalCase(s, false);
    if |s| > 0 && !IsSeparator(s[0]) {
      RecaseFirst(s, false);
    }
  }

  /** `FieldName`: the Pascal-cased input with every run of chars outside
      `[A-Za-z0-9]` removed. */
  method FieldName(s: string) returns (r: string)
    ensures r == Filter(Recase(s, false), IsFieldChar)
    ensures forall c :: c in r ==> IsFieldChar(c)
  {
    r := PascalCase(s);
    FilterMembers(r, IsFieldChar);
    r := Filter(r, IsFieldChar);
  }

  /** A field name holds exactly the input's letters and digits, in order,
      with only their case changed. */
  lemma FieldNameKeepsText(s: string)
    ensures Lower(Filter(Recase(s, false), IsFieldChar)) == Filter(Lower(s), IsFieldChar)
  {
    var m := MapCase(s, false);
    DeleteThenFilter(Delete(m, ' '), '_', IsFieldChar);
    DeleteThenFilter(m, ' ', IsFieldChar);
    LowerFilterField(m);
    MapCaseLower(s, false);
  }

  /** A field name can start with a digit: a leading digit survives both
      the recasing and the filter and opens the name. */
  lemma FieldNameLeadingDigit(s: string)
    requires |s| > 0 && IsDigit(s[0])
    ensures |Filter(Recase(s, false), IsFieldChar)| > 0
    ensures Filter(Recase(s, false), IsFieldChar)[0] == s[0]
  {
    var r := Recase(s, false);
    RecaseFirst(s, false);
    assert r == [r[0]] + r[1..];
    FilterAppend([r[0]], r[1..], IsFieldChar);
  }

  /** Deleting a char the filter drops anyway changes nothing. */
  lemma {:induction false} DeleteThenFilter(s: string, c: char, keep: char -> bool)
    requires !keep(c)
    ensures Filter(Delete(s, c), keep) == Filter(s, keep)
    decreases |s|
  {
    if s != [] {
      var head := if s[0] != c then [s[0]] else [];
      assert Delete(s, c) == head + Delete(s[1..], c);
      FilterAppend(head, Delete(s[1..], c), keep);
      DeleteThenFilter(s[1..], c, keep);
    }
  }

  /** Keeping the letters and digits commutes with lower-casing. */
  lemma {:induction false} LowerFilterField(s: string)
    ensures Lower(Filter(s, IsFieldChar)) == Filter(Lower(s), IsFieldChar)
    decreases |s|
  {
    if s != [] {
      var head := if IsFieldChar(s[0]) then [s[0]] else [];
      LowerFilterField(s[1..]);
      LowerAppend(head, Filter(s[1..], IsFieldChar));
      var t := Lower(s);
      assert t[1..] == Lower(s[1..]);
      CaseMappingKeepsClass(s[0]);
      assert Filter(t, IsFieldChar) == (if IsFieldChar(t[0]) then [t[0]] else []) + Filter(t[1..], IsFieldChar);
    }
  }

  /** The chars `jsonFieldNameRE` keeps: 'a'..'z', '0'..'9' and '_'. */
  predicate IsJsonChar(c: char)
  {
    IsLower(c) || IsDigit(c) || c == '_'
  }

  /** `jsonFieldNameRE.ReplaceAllString(t, "")` for `[^a-z0-9_]+|_$`. The
      first alternative removes every maximal run of chars outside the class;
      the second removes a '_' only when it is the last char of `t`, since
      `$` matches at the end of the text. The two never overlap, so the
      result is `t` without a final '_' and without the chars outside the
      class. */
  function JsonFilter(t: string): (r: string)
    ensures forall c :: c in r ==> IsJsonChar(c)
  {
    var body := if |t| > 0 && t[|t| - 1] == '_' then t[..|t| - 1] else t;
    FilterMembers(body, IsJsonChar);
    Filter(body, IsJsonChar)
  }

  /** On snake_case text the class filter keeps everything, so the regexp
      removes at most one trailing '_' and nothing else. */
  lemma JsonFilterOnSnake(t: string)
    requires forall i :: 0 <= i < |t| ==> IsSnakeChar(t[i])
    ensures JsonFilter(t) == if |t| > 0 && t[|t| - 1] == '_' then t[..|t| - 1] else t
  {
    var body := if |t| > 0 && t[|t| - 1] == '_' then t[..|t| - 1] else t;
    FilterKeepsAll(body, IsJsonChar);
  }

  /** `strings.Replace(t, "__", "_", -1)`: a left-to-right pass that replaces
      each non-overlapping "__" by "_". */
  function ReplacePairs(t: string): (r: string)
    ensures |r| <= |t|
    decreases |t|
  {
    if |t| >= 2 && t[0] == '_' && t[1] == '_' then "_" + ReplacePairs(t[2..])
    else if t == [] then []
    else [t[0]] + ReplacePairs(t[1..])
  }

  /** The pass only drops underscores: the same chars occur before and after. */
  lemma {:induction false} ReplacePairsMembers(t: string)
    ensures forall c :: c in ReplacePairs(t) <==> c in t
    decreases |t|
  {
    if |t| >= 2 && t[0] == '_' && t[1] == '_' {
      ReplacePairsMembers(t[2..]);
      assert t == "__" + t[2..];
    } else if t != [] {
      ReplacePairsMembers(t[1..]);
      assert t == [t[0]] + t[1..];
    }
  }

  /** No two neighbouring chars of `t` are both '_'. */
  predicate NoDoubleUnderscore(t: string)
  {
    forall i :: 0 <= i < |t| - 1 ==> !(t[i] == '_' && t[i + 1] == '_')
  }

  /** A prefix without "__" that does not end in '_' passes through
      unchanged, and the pass goes on after it as if from the start. */
  lemma {:induction false} ReplacePairsAppend(a: string, b: string)
    requires NoDoubleUnderscore(a) && (a == [] || a[|a| - 1] != '_')
    ensures ReplacePairs(a + b) == a + ReplacePairs(b)
    decreases |a|
  {
    if a != [] {
      var u := a + b;
      assert u[0] == a[0] && u[1..] == a[1..] + b;
      if |a| >= 2 {
        assert !(a[0] == '_' && a[1] == '_');
      } else {
        assert a[0] != '_';
      }
      assert ReplacePairs(u) == [a[0]] + ReplacePairs(a[1..] + b);
      ReplacePairsAppend(a[1..], b);
      AppendAssoc([a[0]], a[1..], ReplacePairs(b));
      assert [a[0]] + a[1..] == a;
    } else {
      assert a + b == b;
    }
  }

  /** Text without "__" is left as it is by the pass. */
  lemma ReplacePairsNoPairs(t: string)
    requires NoDoubleUnderscore(t)
    ensures ReplacePairs(t) == t
  {
    if t != [] && t[|t| - 1] == '_' {
      var a := t[..|t| - 1];
      assert NoDoubleUnderscore(a) && (a == [] || a[|a| - 1] != '_');
      ReplacePairsAppend(a, "_");
      assert a + "_" == t;
    } else {
      ReplacePairsAppend(t, []);
      assert t + [] == t;
    }
  }

  function Underscores(k: nat): (u: string)
    ensures |u| == k && forall i :: 0 <= i < k ==> u[i] == '_'
  {
    seq(k, _ => '_')
  }

  lemma UnderscoresCons(k: nat)
    ensures Underscores(k + 1) == ['_'] + Underscores(k)
  {
  }

  /** A run of two or more underscores loses its first pair to one '_'. */
  lemma ReplacePairsRunHead(k: nat, t: string)
    requires k >= 2
    ensures ReplacePairs(Underscores(k) + t) == ['_'] + ReplacePairs(Underscores(k - 2) + t)
  {
    var u := Underscores(k) + t;
    assert u[0] == '_' && u[1] == '_' && u[2..] == Underscores(k - 2) + t;
  }

  /** A lone underscore passes through. */
  lemma ReplacePairsRunOne(t: string)
    requires t == [] || t[0] != '_'
    ensures ReplacePairs(Underscores(1) + t) == Underscores(1) + ReplacePairs(t)
  {
    var u := Underscores(1) + t;
    assert u[0] == '_' && u[1..] == t;
  }

  /** One more pair in front of a run adds one '_' to its image. */
  lemma ReplacePairsRunStep(k: nat, t: string, h: nat)
    requires k >= 2 && h == (k - 1) / 2
    requires ReplacePairs(Underscores(k - 2) + t) == Underscores(h) + ReplacePairs(t)
    ensures ReplacePairs(Underscores(k) + t) == Underscores(h + 1) + ReplacePairs(t)
  {
    ReplacePairsRunHead(k, t);
    UnderscoresCons(h);
    AppendAssoc(['_'], Underscores(h), ReplacePairs(t));
  }

  /** A run of `k` underscores becomes a run of `k / 2` rounded up: the pass
      does not collapse to a fixed point, so three stay two. */
  lemma {:induction false} ReplacePairsRun(k: nat, t: string)
    requires t == [] || t[0] != '_'
    ensures ReplacePairs(Underscores(k) + t) == Underscores((k + 1) / 2) + ReplacePairs(t)
    decreases k
  {
    if k >= 2 {
      var h := (k - 1) / 2;
      assert (k + 1) / 2 == h + 1 && (k - 2 + 1) / 2 == h;
      ReplacePairsRun(k - 2, t);
      ReplacePairsRunStep(k, t, h);
    } else if k == 1 {
      ReplacePairsRunOne(t);
    } else {
      assert Underscores(0) + t == t;
    }
  }

  /** `JSONFieldName`: snake_case, the regexp filter, then one pass of
      "__" to "_". */
  function JSONFieldName(s: string): (r: string)
    ensures forall c :: c in r ==> IsJsonChar(c)
  {
    ReplacePairsMembers(JsonFilter(SnakeCase(s)));
    ReplacePairs(JsonFilter(SnakeCase(s)))
  }

  /** Since snake_case output is already in the class, a JSON field name is
      the snake-cased input without a final '_', with each "__" halved. */
  lemma JSONFieldNameOfSnake(s: string)
    ensures var t := SnakeCase(s);
      JSONFieldName(s) == ReplacePairs(if |t| > 0 && t[|t| - 1] == '_' then t[..|t| - 1] else t)
  {
    JsonFilterOnSnake(SnakeCase(s));
  }

  /** Where the snake-cased text has no "__" and no final '_', the JSON
      field name is exactly the snake-cased text. */
  lemma JSONFieldNameIsSnake(s: string)
    requires NoDoubleUnderscore(SnakeCase(s))
    requires SnakeCase(s) == [] || SnakeCase(s)[|SnakeCase(s)| - 1] != '_'
    ensures JSONFieldName(s) == SnakeCase(s)
  {
    JSONFieldNameOfSnake(s);
    ReplacePairsNoPairs(SnakeCase(s));
  }
}
