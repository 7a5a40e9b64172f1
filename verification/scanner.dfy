/** The two text scans `Rein::run` performs on every readable file
    (src/Rein.php:43-44), written as hand-made matchers over the file's text.

    Both PCRE patterns carry the `i` flag and no `u` flag, so letters are
    folded in the ASCII range only; the `m` flag has no effect since neither
    pattern uses `^` or `$`. `preg_match_all` takes the leftmost match, then
    resumes the search right after it; the scans below do exactly that, and
    the lemmas show that for these two patterns no occurrence is lost by the
    jump. */
module Scanner {

  /** ASCII lower-casing, the folding PCRE applies under the `i` flag. */
  function Lower(c: char): char
  {
    if 'A' <= c <= 'Z' then (c as int + 32) as char else c
  }

  /** The lower-case literal `lit` occurs at position `i` of `s`, up to case. */
  predicate LiteralAt(s: string, i: nat, lit: string)
  {
    i + |lit| <= |s| && forall k :: 0 <= k < |lit| ==> Lower(s[i + k]) == lit[k]
  }

  // ---------------------------------------------------------------------
  // Counting `assert(` (src/Rein.php:43)
  // ---------------------------------------------------------------------

  const AssertToken: string := "assert("

  predicate AssertAt(s: string, i: nat)
  {
    LiteralAt(s, i, AssertToken)
  }

  /** `preg_match_all('/assert\(/im', ...)` from position `i`: on a match,
      count it and resume after its last character. */
  function CountAssertsFrom(s: string, i: nat): nat
    decreases |s| - i
  {
    if i >= |s| then 0
    else if AssertAt(s, i) then 1 + CountAssertsFrom(s, i + |AssertToken|)
    else CountAssertsFrom(s, i + 1)
  }

  function CountAsserts(s: string): nat
  {
    CountAssertsFrom(s, 0)
  }

  /** Reference definition: one for every position at which `assert(` starts. */
  function OccurrencesFrom(s: string, i: nat): nat
    decreases |s| - i
  {
    if i >= |s| then 0
    else (if AssertAt(s, i) then 1 else 0) + OccurrencesFrom(s, i + 1)
  }

  /** The letter `a` appears only first in `assert(`, so two occurrences
      never overlap. */
  lemma NoAssertInside(s: string, i: nat, q: nat)
    requires AssertAt(s, i) && i < q < i + |AssertToken|
    ensures !AssertAt(s, q)
  {
    assert Lower(s[i + (q - i)]) == AssertToken[q - i];
    assert AssertToken[q - i] != AssertToken[0];
    assert s[q + 0] == s[i + (q - i)];
  }

  lemma {:induction false} SkipOccurrences(s: string, i: nat, n: nat)
    requires AssertAt(s, i) && 1 <= n <= |AssertToken|
    ensures OccurrencesFrom(s, i + 1) == OccurrencesFrom(s, i + n)
    decreases n
  {
    if n > 1 {
      SkipOccurrences(s, i, n - 1);
      NoAssertInside(s, i, i + n - 1);
    }
  }

  /** The leftmost-match scan counts every occurrence of `assert(`. */
  lemma {:induction false} CountAssertsIsOccurrences(s: string, i: nat)
    ensures CountAssertsFrom(s, i) == OccurrencesFrom(s, i)
    decreases |s| - i
  {
    if i < |s| {
      if AssertAt(s, i) {
        CountAssertsIsOccurrences(s, i + |AssertToken|);
        SkipOccurrences(s, i, |AssertToken|);
      } else {
        CountAssertsIsOccurrences(s, i + 1);
      }
    }
  }

  /** The text with every ASCII letter lower-cased. */
  function LowerAll(s: string): string
  {
    seq(|s|, k requires 0 <= k < |s| => Lower(s[k]))
  }

  lemma {:induction false} CountAssertsFromIgnoresCase(s: string, i: nat)
    ensures CountAssertsFrom(s, i) == CountAssertsFrom(LowerAll(s), i)
    decreases |s| - i
  {
    if i < |s| {
      var t := LowerAll(s);
      assert AssertAt(s, i) == AssertAt(t, i) by {
        if i + |AssertToken| <= |s| {
          forall j | i <= j < i + |AssertToken|
            ensures Lower(s[j]) == Lower(t[j])
          {
            assert t[j] == Lower(s[j]);
          }
        }
      }
      if AssertAt(s, i) {
        CountAssertsFromIgnoresCase(s, i + |AssertToken|);
      } else {
        CountAssertsFromIgnoresCase(s, i + 1);
      }
    }
  }

  /** The count is case-insensitive: `ASSERT(` and `Assert(` count too. */
  lemma CountAssertsIgnoresCase(s: string)
    ensures CountAsserts(s) == CountAsserts(LowerAll(s))
  {
    CountAssertsFromIgnoresCase(s, 0);
  }

  // ---------------------------------------------------------------------
  // Extracting test names (src/Rein.php:44-45):
  //   /function (test_(?:[a-z_][a-z0-9_]*))\(/im
  // ---------------------------------------------------------------------

  const Keyword: string := "function "
  const Prefix: string := "test_"

  /** `[a-z_]` under the `i` flag. */
  predicate IsIdentStart(c: char)
  {
    'a' <= Lower(c) <= 'z' || c == '_'
  }

  /** `[a-z0-9_]` under the `i` flag. */
  predicate IsIdentChar(c: char)
  {
    IsIdentStart(c) || '0' <= c <= '9'
  }

  /** Length of the longest run of identifier characters starting at `j`:
      what the greedy `[a-z0-9_]*` consumes. */
  function IdentRun(s: string, j: nat): (n: nat)
    requires j <= |s|
    ensures j + n <= |s|
    ensures forall k :: j <= k < j + n ==> IsIdentChar(s[k])
    ensures j + n == |s| || !IsIdentChar(s[j + n])
    decreases |s| - j
  {
    if j == |s| || !IsIdentChar(s[j]) then 0 else 1 + IdentRun(s, j + 1)
  }

  /** The run length is determined by the two conditions of its contract. */
  lemma {:induction false} IdentRunExact(s: string, j: nat, n: nat)
    requires j + n <= |s|
    requires forall k :: j <= k < j + n ==> IsIdentChar(s[k])
    requires j + n == |s| || !IsIdentChar(s[j + n])
    ensures IdentRun(s, j) == n
    decreases n
  {
    if n > 0 {
      IdentRunExact(s, j + 1, n - 1);
    }
  }

  /** Where the identifier after `test_` ends: the position the closing `(`
      must occupy. Because `(` is not an identifier character, backtracking
      into the greedy run can never produce a match, so this is the only
      candidate. */
  function NameEnd(s: string, i: nat): nat
    requires i + |Keyword| + |Prefix| <= |s|
  {
    i + |Keyword| + |Prefix| + IdentRun(s, i + |Keyword| + |Prefix|)
  }

  /** The pattern matches starting at position `i`. */
  predicate NameAt(s: string, i: nat)
  {
    LiteralAt(s, i, Keyword) && LiteralAt(s, i + |Keyword|, Prefix)
    && i + |Keyword| + |Prefix| < |s| && IsIdentStart(s[i + |Keyword| + |Prefix|])
    && NameEnd(s, i) < |s| && s[NameEnd(s, i)] == '('
  }

  /** Capture group 1 of the match at `i`. */
  function NameOf(s: string, i: nat): string
    requires NameAt(s, i)
  {
    s[i + |Keyword| .. NameEnd(s, i)]
  }

  /** A name the capture group can hold: `test_` in any case, then an
      identifier that starts with a letter or `_`. */
  predicate IsTestName(name: string)
  {
    |name| > |Prefix| && LiteralAt(name, 0, Prefix) && IsIdentStart(name[|Prefix|])
    && forall k :: |Prefix| <= k < |name| ==> IsIdentChar(name[k])
  }

  /** The regular expression read declaratively: `function ` (any case) at
      `p`, then `name`, then `(`. */
  predicate Declares(s: string, p: nat, name: string)
  {
    LiteralAt(s, p, Keyword) && p + |Keyword| + |name| < |s|
    && s[p + |Keyword| .. p + |Keyword| + |name|] == name
    && s[p + |Keyword| + |name|] == '(' && IsTestName(name)
  }

  /** The matcher agrees with the pattern, in both directions. */
  lemma NameAtMeansDeclares(s: string, p: nat)
    requires NameAt(s, p)
    ensures Declares(s, p, NameOf(s, p))
  {
    var name := NameOf(s, p);
    var b := p + |Keyword|;
    assert |name| == NameEnd(s, p) - b;
    forall k | 0 <= k < |Prefix| ensures Lower(name[k]) == Prefix[k] {
      assert name[k] == s[b + k];
    }
    forall k | |Prefix| <= k < |name| ensures IsIdentChar(name[k]) {
      assert name[k] == s[b + k];
    }
    assert name[|Prefix|] == s[b + |Prefix|];
  }

  lemma DeclaresMeansNameAt(s: string, p: nat, name: string)
    requires Declares(s, p, name)
    ensures NameAt(s, p) && NameOf(s, p) == name
  {
    var b := p + |Keyword|;
    assert s[b .. b + |name|] == name;
    forall k | 0 <= k < |Prefix| ensures Lower(s[b + k]) == Prefix[k] {
      assert s[b + k] == name[k];
    }
    assert s[b + |Prefix|] == name[|Prefix|];
    forall k | b + |Prefix| <= k < b + |name| ensures IsIdentChar(s[k]) {
      assert s[k] == name[k - b];
    }
    IdentRunExact(s, b + |Prefix|, |name| - |Prefix|);
  }

  /** A match at `i` leaves no room for another match to start before its
      closing `(` has been passed: the only space in it is the one after
      `function`, and its last character `(` is not a letter. */
  lemma NoNameInside(s: string, i: nat, q: nat)
    requires NameAt(s, i) && i < q <= NameEnd(s, i)
    ensures !NameAt(s, q)
  {
    var e := NameEnd(s, i);
    var b := i + |Keyword|;
    if q + 8 < e {
      if q + 8 < b + |Prefix| {
        assert Lower(s[b + (q + 8 - b)]) == Prefix[q + 8 - b];
        assert Lower(s[q + 8]) != Keyword[8];
      } else {
        assert IsIdentChar(s[q + 8]);
        assert Lower(s[q + 8]) != Keyword[8];
      }
    } else if q + |Keyword| <= |s| {
      assert Lower(s[q + (e - q)]) != Keyword[e - q];
    }
  }

  /** One match found by the scan: where it starts and the captured name. */
  datatype Match = Match(pos: nat, name: string)

  /** `preg_match_all` of the test-name pattern from position `i`: on a
      match, record it and resume after its `(`. */
  function ScanFrom(s: string, i: nat): seq<Match>
    decreases |s| - i
  {
    if i >= |s| then []
    else if NameAt(s, i) then [Match(i, NameOf(s, i))] + ScanFrom(s, NameEnd(s, i) + 1)
    else ScanFrom(s, i + 1)
  }

  /** The scan reports exactly the positions at or after `i` where the
      pattern matches, each with its own capture. */
  lemma {:induction false} ScanFromExact(s: string, i: nat)
    ensures forall m :: m in ScanFrom(s, i) ==> i <= m.pos && NameAt(s, m.pos) && m.name == NameOf(s, m.pos)
    ensures forall p :: i <= p && NameAt(s, p) ==> Match(p, NameOf(s, p)) in ScanFrom(s, i)
    decreases |s| - i
  {
    if i < |s| {
      if NameAt(s, i) {
        var e := NameEnd(s, i);
        ScanFromExact(s, e + 1);
        forall p | i < p <= e ensures !NameAt(s, p) {
          NoNameInside(s, i, p);
        }
      } else {
        ScanFromExact(s, i + 1);
      }
    } else {
      forall p | i <= p ensures !NameAt(s, p) {
      }
    }
  }

  /** Positions strictly increase along `ms`. */
  predicate InSourceOrder(ms: seq<Match>)
  {
    forall a, b :: 0 <= a < b < |ms| ==> ms[a].pos < ms[b].pos
  }

  lemma ScanFromMatch(s: string, i: nat)
    requires i < |s| && NameAt(s, i)
    ensures ScanFrom(s, i) == [Match(i, NameOf(s, i))] + ScanFrom(s, NameEnd(s, i) + 1)
  {
  }

  lemma ScanFromNoMatch(s: string, i: nat)
    requires i < |s| && !NameAt(s, i)
    ensures ScanFrom(s, i) == ScanFrom(s, i + 1)
  {
  }

  lemma InSourceOrderCons(m: Match, tail: seq<Match>)
    requires InSourceOrder(tail)
    requires forall k :: 0 <= k < |tail| ==> m.pos < tail[k].pos
    ensures InSourceOrder([m] + tail)
    ensures forall k :: 0 <= k < |[m] + tail| ==> m.pos <= ([m] + tail)[k].pos
  {
    var ms := [m] + tail;
    forall k | 0 < k < |ms| ensures m.pos <= ms[k].pos {
      assert ms[k] == tail[k - 1];
    }
    forall a, b | 0 <= a < b < |ms| ensures ms[a].pos < ms[b].pos {
      assert ms[b] == tail[b - 1];
      if a > 0 {
        assert ms[a] == tail[a - 1];
      }
    }
  }

  /** The matches come in source order, none before the scan's start. */
  lemma {:induction false} ScanFromOrdered(s: string, i: nat)
    ensures InSourceOrder(ScanFrom(s, i))
    ensures forall k :: 0 <= k < |ScanFrom(s, i)| ==> i <= ScanFrom(s, i)[k].pos
    decreases |s| - i
  {
    if i < |s| {
      if NameAt(s, i) {
        var next := NameEnd(s, i) + 1;
        ScanFromOrdered(s, next);
        OrderedAfterMatch(s, i, next);
      } else {
        ScanFromOrdered(s, i + 1);
        ScanFromNoMatch(s, i);
      }
    }
  }

  lemma OrderedAfterMatch(s: string, i: nat, next: nat)
    requires i < |s| && NameAt(s, i) && next == NameEnd(s, i) + 1
    requires InSourceOrder(ScanFrom(s, next))
    requires forall k :: 0 <= k < |ScanFrom(s, next)| ==> next <= ScanFrom(s, next)[k].pos
    ensures InSourceOrder(ScanFrom(s, i))
    ensures forall k :: 0 <= k < |ScanFrom(s, i)| ==> i <= ScanFrom(s, i)[k].pos
  {
    ScanFromMatch(s, i);
    InSourceOrderCons(Match(i, NameOf(s, i)), ScanFrom(s, next));
  }

  /** The list `$matches[1]`: the captured names in source order. */
  function TestNames(s: string): (names: seq<string>)
  {
    var ms := ScanFrom(s, 0);
    seq(|ms|, k requires 0 <= k < |ms| => ms[k].name)
  }

  /** Everything the extractor promises: each name is declared at its
      position (`function ` before it, `(` after it, the shape of a test
      name), positions increase, and every declaration in the text is
      among them. */
  lemma TestNamesSpec(s: string)
    ensures |TestNames(s)| == |ScanFrom(s, 0)|
    ensures forall k :: 0 <= k < |TestNames(s)| ==>
              Declares(s, ScanFrom(s, 0)[k].pos, TestNames(s)[k])
    ensures InSourceOrder(ScanFrom(s, 0))
    ensures forall p, name :: Declares(s, p, name) ==> Match(p, name) in ScanFrom(s, 0)
  {
    var ms := ScanFrom(s, 0);
    ScanFromExact(s, 0);
    ScanFromOrdered(s, 0);
    forall k | 0 <= k < |TestNames(s)| ensures Declares(s, ms[k].pos, TestNames(s)[k]) {
      assert ms[k] in ms;
      NameAtMeansDeclares(s, ms[k].pos);
    }
    forall p, name | Declares(s, p, name) ensures Match(p, name) in ms {
      DeclaresMeansNameAt(s, p, name);
    }
  }

  /** Every extracted name has the shape of a test name. */
  lemma TestNamesAreTestNames(s: string)
    ensures forall name :: name in TestNames(s) ==> IsTestName(name)
  {
    TestNamesSpec(s);
    forall name | name in TestNames(s) ensures IsTestName(name) {
      var k :| 0 <= k < |TestNames(s)| && TestNames(s)[k] == name;
      assert Declares(s, ScanFrom(s, 0)[k].pos, name);
    }
  }
}
