/** Word breaks inside a compact identifier and the detection of a leading
    initialism (utils.go `isWordBreak`, `startsWithInitialism` and the
    `commonInitialisms` table). Strings are ASCII, so a byte index and a rune
    index into the same string coincide and one index serves for both. */
module Initialisms {
  import opened Runes

  /** The fixed table of recognised initialisms (every key of the source's
      map maps to true, so the map is the set of its keys). */
  const CommonInitialisms: set<string> := {
    "ACL", "API", "ASCII", "CPU", "CSS", "DNS", "EOF", "GUID", "HTML", "HTTP",
    "HTTPS", "ID", "IP", "JSON", "LHS", "QPS", "RAM", "RHS", "RPC", "SLA",
    "SMTP", "SQL", "SSH", "TCP", "TLS", "TTL", "UDP", "UI", "UID", "UUID",
    "URI", "URL", "UTF8", "VM", "XML", "XMPP", "XSRF", "XSS"
  }

  /** The shape every entry of a table of initialisms has: 2 to 5 chars, the
      first two upper-case letters. The functions below take the table as a
      parameter `table`; the library's own table is `CommonInitialisms`. */
  predicate WellShaped(table: set<string>)
  {
    forall w {:trigger EntryShaped(w)} :: w in table ==> EntryShaped(w)
  }

  predicate EntryShaped(w: string)
  {
    2 <= |w| <= 5 && IsUpper(w[0]) && IsUpper(w[1])
  }

  /** The library's table has that shape; this is what makes a table hit
      begin at the first word break. */
  lemma CommonInitialismsWellShaped()
    ensures WellShaped(CommonInitialisms)
  {
    forall w | w in CommonInitialisms
      ensures EntryShaped(w)
    {
      EntryShape(w);
    }
  }

  lemma EntryShape(w: string)
    requires w in CommonInitialisms
    ensures 2 <= |w| <= 5 && IsUpper(w[0]) && IsUpper(w[1])
  {
  }

  /** A new word starts at `rs[i]`: an upper-case letter, or the first digit
      of a run of digits. */
  predicate IsWordBreak(rs: string, i: nat)
    requires i < |rs|
  {
    IsUpper(rs[i]) || ((i == 0 || !IsDigit(rs[i - 1])) && IsDigit(rs[i]))
  }

  /** Inside a run of digits only the first digit is a break, and a lower-case
      letter never is. */
  lemma DigitRunBreaksOnce(rs: string, a: nat, b: nat)
    requires a < b <= |rs|
    requires forall m :: a <= m < b ==> IsDigit(rs[m])
    requires a == 0 || !IsDigit(rs[a - 1])
    ensures IsWordBreak(rs, a)
    ensures forall m :: a < m < b ==> !IsWordBreak(rs, m)
    ensures forall m :: 0 <= m < |rs| && IsLower(rs[m]) ==> !IsWordBreak(rs, m)
  {
  }

  /** Breaks away from the first position do not depend on what precedes
      `p`, so a suffix has the same breaks as the whole string there. */
  lemma SuffixBreaks(s: string, p: nat)
    requires p <= |s|
    ensures forall m :: 0 < m < |s| - p ==> IsWordBreak(s[p..], m) == IsWordBreak(s, p + m)
  {
    forall m | 0 < m < |s| - p
      ensures IsWordBreak(s[p..], m) == IsWordBreak(s, p + m)
    {
      assert s[p..][m] == s[p + m] && s[p..][m - 1] == s[p + m - 1];
    }
  }

  /** The first `k` chars of `s` (`k` at most 5) form a table entry. */
  predicate TablePrefix(s: string, k: nat, table: set<string>)
  {
    1 <= k <= 5 && k <= |s| && s[..k] in table
  }

  /** The longest table entry of length at most `n` that prefixes `s`, as its
      length, or 0 when there is none. */
  function LongestTablePrefix(s: string, n: nat, table: set<string>): (k: nat)
    requires n <= 5
    ensures k <= n
    decreases n
  {
    if n == 0 then 0
    else if n <= |s| && s[..n] in table then n
    else LongestTablePrefix(s, n - 1, table)
  }

  /** It is a table entry that prefixes `s`, and no longer one does. */
  lemma {:induction false} LongestTablePrefixSpec(s: string, n: nat, table: set<string>)
    requires n <= 5
    ensures var k := LongestTablePrefix(s, n, table);
      && (k == 0 || TablePrefix(s, k, table))
      && forall m :: k < m <= n ==> !TablePrefix(s, m, table)
    decreases n
  {
    if n > 0 && !(n <= |s| && s[..n] in table) {
      LongestTablePrefixSpec(s, n - 1, table);
    }
  }

  /** `n` is the length of the leading run of word breaks of `s`, counted up
      to 5. */
  predicate IsBreakRun(s: string, n: nat)
  {
    && n <= 5 && n <= |s|
    && (forall j :: 0 <= j < n ==> IsWordBreak(s, j))
    && (n < 5 && n < |s| ==> !IsWordBreak(s, n))
  }

  /** The leading run of word breaks, counted on from `e`. */
  function BreakRunFrom(s: string, e: nat): (n: nat)
    requires e <= 5 && e <= |s|
    ensures e <= n <= 5 && n <= |s|
    decreases 5 - e
  {
    if e == 5 || e == |s| || !IsWordBreak(s, e) then e else BreakRunFrom(s, e + 1)
  }

  /** Counted on from a run of breaks, it gives the whole run. */
  lemma {:induction false} BreakRunFromSpec(s: string, e: nat)
    requires e <= 5 && e <= |s|
    requires forall j :: 0 <= j < e ==> IsWordBreak(s, j)
    ensures IsBreakRun(s, BreakRunFrom(s, e))
    decreases 5 - e
  {
    if !(e == 5 || e == |s| || !IsWordBreak(s, e)) {
      BreakRunFromSpec(s, e + 1);
    }
  }

  /** What `startsWithInitialism` returns for `s`: a prefix of `s` of at most
      5 chars (empty when there is no initialism). */
  function Initialism(s: string, table: set<string>): (r: string)
    ensures |r| <= 5 && |r| <= |s| && r == s[..|r|]
  {
    var k := LongestTablePrefix(s, 5, table);
    if k > 0 then s[..k]
    else
      var n := BreakRunFrom(s, 0);
      if n > 2 then s[..n - 1] else ""
  }

  /** Which prefix that is: the longest table entry when one prefixes `s`;
      otherwise, for the leading run of `n` word breaks (counted up to 5),
      its first `n - 1` chars when `n` exceeds 2, and nothing else. */
  lemma InitialismSpec(s: string, table: set<string>)
    ensures exists n: nat :: IsBreakRun(s, n)
    ensures forall k: nat :: TablePrefix(s, k, table) ==>
              TablePrefix(s, |Initialism(s, table)|, table) && k <= |Initialism(s, table)|
    ensures (forall k: nat :: !TablePrefix(s, k, table)) ==>
              forall n: nat :: IsBreakRun(s, n) ==>
                Initialism(s, table) == if n > 2 then s[..n - 1] else ""
  {
    LongestTablePrefixSpec(s, 5, table);
    BreakRunFromSpec(s, 0);
    var n := BreakRunFrom(s, 0);
    forall n': nat | IsBreakRun(s, n') ensures n' == n {
      BreakRunUnique(s, n, n');
    }
    assert IsBreakRun(s, n);
  }

  lemma BreakRunUnique(s: string, n: nat, n': nat)
    requires IsBreakRun(s, n) && IsBreakRun(s, n')
    ensures n == n'
  {
  }

  /** A non-empty initialism can only be found where the second char of `s`
      is a word break, so the decomposer meets it at its first break. */
  lemma InitialismAtFirstBreak(s: string, table: set<string>)
    requires WellShaped(table)
    ensures Initialism(s, table) != "" ==> 2 <= |Initialism(s, table)| && IsWordBreak(s, 1)
  {
    var r := Initialism(s, table);
    LongestTablePrefixSpec(s, 5, table);
    BreakRunFromSpec(s, 0);
    var k := LongestTablePrefix(s, 5, table);
    if k > 0 {
      assert s[..k] in table && EntryShaped(s[..k]);
      assert s[..k][1] == s[1];
    } else if r != "" {
      var n := BreakRunFrom(s, 0);
      assert IsBreakRun(s, n);
    }
  }

  /** The scan of `startsWithInitialism`: table lengths 5 down to 1, then the
      count of leading word breaks. */
  method StartsWithInitialism(s: string) returns (r: string)
    ensures r == Initialism(s, CommonInitialisms)
  {
    var i := 5;
    while i > 0
      invariant 0 <= i <= 5
      invariant LongestTablePrefix(s, i, CommonInitialisms) == LongestTablePrefix(s, 5, CommonInitialisms)
    {
      if |s| >= i && s[..i] in CommonInitialisms {
        return s[..i];
      }
      i := i - 1;
    }

    // rs := []rune(s) is s itself on ASCII input
    var rs := s;
    var end := 0;
    while end < 5
      invariant 0 <= end <= 5 && end <= |rs|
      invariant forall j :: 0 <= j < end ==> IsWordBreak(rs, j)
      invariant BreakRunFrom(rs, end) == BreakRunFrom(rs, 0)
    {
      if |rs| <= end {
        break;
      }
      if !IsWordBreak(rs, end) {
        break;
      }
      end := end + 1;
    }

    if end > 2 {
      return rs[..end - 1];
    }
    return "";
  }
}
