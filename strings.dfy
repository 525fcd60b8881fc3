/**
 * The Foundation string operations `urlFor` relies on, over `seq<char>`:
 * `range(of:)` searching from a position, `components(separatedBy:)` with a
 * one-character separator, `replacingOccurrences(of:with:)` and `String(_: Int)`.
 * Each is given by a recursive definition and characterised by lemmas.
 */
module Strings {
  import opened Wrappers

  // ---------------------------------------------------------------------
  // Occurrences and search
  // ---------------------------------------------------------------------

  /** `pat` occurs in `s` starting at index `i`. */
  predicate OccursAt(s: string, pat: string, i: int) {
    0 <= i && i + |pat| <= |s| && s[i..i + |pat|] == pat
  }

  /** `pat` occurs somewhere in `s`. */
  predicate Contains(s: string, pat: string) {
    exists i :: 0 <= i <= |s| - |pat| && OccursAt(s, pat, i)
  }

  /** No occurrence of `pat` in `s` starts at an index in `[from, upto)`. */
  predicate NoneBetween(s: string, pat: string, from: int, upto: int) {
    forall i :: from <= i < upto ==> !OccursAt(s, pat, i)
  }

  /**
   * The index of the first occurrence of `pat` in `s` at or after `from`
   * (Swift's `s[from...].range(of: pat)?.lowerBound`), or `None`.
   */
  function Find(s: string, pat: string, from: nat): (r: Option<nat>)
    ensures r.Some? ==> from <= r.value && OccursAt(s, pat, r.value)
                        && NoneBetween(s, pat, from, r.value)
    ensures r.None? ==> NoneBetween(s, pat, from, |s| + 1)
    decreases |s| - from
  {
    if from + |pat| > |s| then None
    else if s[from..from + |pat|] == pat then Some(from)
    else Find(s, pat, from + 1)
  }

  /** The search finds exactly the first occurrence at or after `from`. */
  lemma FindFirst(s: string, pat: string, from: nat, i: nat)
    requires from <= i && OccursAt(s, pat, i) && NoneBetween(s, pat, from, i)
    ensures Find(s, pat, from) == Some(i)
  {
  }

  // ---------------------------------------------------------------------
  // Splitting and joining
  // ---------------------------------------------------------------------

  /** The parts of a non-empty list glued together with `sep` between neighbours. */
  function Join(parts: seq<string>, sep: string): string
    requires |parts| > 0
  {
    if |parts| == 1 then parts[0] else parts[0] + sep + Join(parts[1..], sep)
  }

  /**
   * `s.components(separatedBy: [sep])`: the maximal runs between separators.
   * The empty string gives one empty component.
   */
  function Split(s: string, sep: char): (parts: seq<string>)
    ensures |parts| >= 1
    ensures forall p :: p in parts ==> sep !in p
  {
    if s == [] then [[]]
    else
      var rest := Split(s[1..], sep);
      if s[0] == sep then [[]] + rest
      else [[s[0]] + rest[0]] + rest[1..]
  }

  /** Joining the components with the separator gives back the original string. */
  lemma {:induction false} JoinSplit(s: string, sep: char)
    ensures Join(Split(s, sep), [sep]) == s
  {
    if s != [] {
      var rest := Split(s[1..], sep);
      var parts := Split(s, sep);
      JoinSplit(s[1..], sep);
      assert s == [s[0]] + s[1..];
      if s[0] == sep {
        assert parts == [[]] + rest;
        assert parts[1..] == rest;
        assert Join(parts, [sep]) == [] + [sep] + Join(rest, [sep]);
      } else if |rest| == 1 {
        assert parts == [[s[0]] + rest[0]];
        assert Join(rest, [sep]) == rest[0];
      } else {
        assert parts == [[s[0]] + rest[0]] + rest[1..];
        assert parts[1..] == rest[1..];
        calc {
          Join(parts, [sep]);
          ([s[0]] + rest[0]) + [sep] + Join(rest[1..], [sep]);
          [s[0]] + (rest[0] + [sep] + Join(rest[1..], [sep]));
          [s[0]] + Join(rest, [sep]);
        }
      }
    }
  }

  /** Splitting a separator-free prefix: it becomes the front of the first component. */
  lemma {:induction false} SplitPrefix(a: string, t: string, sep: char)
    requires sep !in a
    ensures Split(a + t, sep) == [a + Split(t, sep)[0]] + Split(t, sep)[1..]
  {
    if a != [] {
      SplitPrefix(a[1..], t, sep);
      assert (a + t)[1..] == a[1..] + t;
      assert [a[0]] + (a[1..] + Split(t, sep)[0]) == a + Split(t, sep)[0];
    } else {
      assert a + t == t;
      assert a + Split(t, sep)[0] == Split(t, sep)[0];
      assert Split(t, sep) == [Split(t, sep)[0]] + Split(t, sep)[1..];
    }
  }

  /** Splitting a join of separator-free parts gives back the parts. */
  lemma {:induction false} SplitJoin(parts: seq<string>, sep: char)
    requires |parts| > 0
    requires forall p :: p in parts ==> sep !in p
    ensures Split(Join(parts, [sep]), sep) == parts
  {
    if |parts| == 1 {
      SplitPrefix(parts[0], [], sep);
      assert parts[0] + [] == parts[0];
    } else {
      var tail := Join(parts[1..], [sep]);
      SplitJoin(parts[1..], sep);
      assert Join(parts, [sep]) == parts[0] + ([sep] + tail);
      SplitPrefix(parts[0], [sep] + tail, sep);
      assert ([sep] + tail)[1..] == tail;
      assert Split([sep] + tail, sep) == [[]] + parts[1..];
      assert parts[0] + [] == parts[0];
    }
  }

  // ---------------------------------------------------------------------
  // Replacing every occurrence
  // ---------------------------------------------------------------------

  /**
   * `s.replacingOccurrences(of: pat, with: rep)`: a left-to-right scan that
   * replaces each non-overlapping occurrence of `pat`.
   */
  function ReplaceAll(s: string, pat: string, rep: string): string
    requires |pat| > 0
    decreases |s|
  {
    if |s| < |pat| then s
    else if s[..|pat|] == pat then rep + ReplaceAll(s[|pat|..], pat, rep)
    else [s[0]] + ReplaceAll(s[1..], pat, rep)
  }

  /** No character of `a` occurs in `b`. */
  predicate NoCommonChar(a: string, b: string) {
    forall c :: c in a ==> c !in b
  }

  /** No proper prefix of `pat` is also a suffix of it, so two occurrences never overlap. */
  predicate Borderless(pat: string) {
    forall k :: 0 < k < |pat| ==> pat[..k] != pat[|pat| - k..]
  }

  /**
   * Any prefix of the result that holds no character of `rep` was copied
   * unchanged from the input.
   */
  lemma {:induction false} ReplaceAllKeepsPrefix(s: string, pat: string, rep: string, k: nat)
    requires |pat| > 0 && |rep| > 0
    requires k <= |ReplaceAll(s, pat, rep)|
    requires forall j :: 0 <= j < k ==> ReplaceAll(s, pat, rep)[j] !in rep
    ensures k <= |s| && s[..k] == ReplaceAll(s, pat, rep)[..k]
    decreases |s|
  {
    var r := ReplaceAll(s, pat, rep);
    if k > 0 && |s| >= |pat| {
      assert r[0] !in rep;
      assert s[..|pat|] != pat;
      var r' := ReplaceAll(s[1..], pat, rep);
      assert r == [s[0]] + r';
      forall j | 0 <= j < k - 1 ensures r'[j] !in rep {
        assert r'[j] == r[j + 1];
      }
      ReplaceAllKeepsPrefix(s[1..], pat, rep, k - 1);
      assert s[..k] == [s[0]] + s[1..][..k - 1];
    }
  }

  /**
   * After replacement no occurrence of `pat` is left, provided the
   * replacement is non-empty and shares no character with `pat`.
   */
  lemma {:induction false} ReplaceAllLeavesNone(s: string, pat: string, rep: string)
    requires |pat| > 0 && |rep| > 0 && NoCommonChar(pat, rep)
    ensures !Contains(ReplaceAll(s, pat, rep), pat)
    decreases |s|
  {
    var r := ReplaceAll(s, pat, rep);
    if |s| < |pat| {
      assert r == s;
    } else if s[..|pat|] == pat {
      var r' := ReplaceAll(s[|pat|..], pat, rep);
      assert r == rep + r';
      ReplaceAllLeavesNone(s[|pat|..], pat, rep);
      forall i | 0 <= i <= |r| - |pat| ensures !OccursAt(r, pat, i) {
        if i < |rep| {
          assert r[i] == rep[i] && rep[i] in rep;
        } else if OccursAt(r, pat, i) {
          assert r'[i - |rep|..i - |rep| + |pat|] == r[i..i + |pat|];
          assert OccursAt(r', pat, i - |rep|);
        }
      }
    } else {
      var r' := ReplaceAll(s[1..], pat, rep);
      ReplaceAllLeavesNone(s[1..], pat, rep);
      forall i | 0 <= i <= |r| - |pat| ensures !OccursAt(r, pat, i) {
        if i == 0 {
          if OccursAt(r, pat, 0) {
            forall j | 0 <= j < |pat| ensures r[j] !in rep { assert r[j] == pat[j]; }
            ReplaceAllKeepsPrefix(s, pat, rep, |pat|);
          }
        } else if OccursAt(r, pat, i) {
          assert r'[i - 1..i - 1 + |pat|] == r[i..i + |pat|];
          assert OccursAt(r', pat, i - 1);
        }
      }
    }
  }

  /**
   * Replacement creates no new occurrence of a string `q` that shares no
   * character with the (non-empty) replacement.
   */
  lemma {:induction false} ReplaceAllCreatesNone(s: string, pat: string, rep: string, q: string)
    requires |pat| > 0 && |rep| > 0 && |q| > 0 && NoCommonChar(q, rep)
    requires !Contains(s, q)
    ensures !Contains(ReplaceAll(s, pat, rep), q)
    decreases |s|
  {
    var r := ReplaceAll(s, pat, rep);
    if |s| < |pat| {
      assert r == s;
    } else if s[..|pat|] == pat {
      var s' := s[|pat|..];
      var r' := ReplaceAll(s', pat, rep);
      assert r == rep + r';
      forall i | 0 <= i <= |s'| - |q| ensures !OccursAt(s', q, i) {
        assert s'[i..i + |q|] == s[i + |pat|..i + |pat| + |q|];
        assert !OccursAt(s, q, i + |pat|);
      }
      ReplaceAllCreatesNone(s', pat, rep, q);
      forall i | 0 <= i <= |r| - |q| ensures !OccursAt(r, q, i) {
        if i < |rep| {
          assert r[i] == rep[i] && rep[i] in rep;
        } else if OccursAt(r, q, i) {
          assert r'[i - |rep|..i - |rep| + |q|] == r[i..i + |q|];
          assert OccursAt(r', q, i - |rep|);
        }
      }
    } else {
      var s' := s[1..];
      var r' := ReplaceAll(s', pat, rep);
      forall i | 0 <= i <= |s'| - |q| ensures !OccursAt(s', q, i) {
        assert s'[i..i + |q|] == s[i + 1..i + 1 + |q|];
        assert !OccursAt(s, q, i + 1);
      }
      ReplaceAllCreatesNone(s', pat, rep, q);
      forall i | 0 <= i <= |r| - |q| ensures !OccursAt(r, q, i) {
        if i == 0 {
          if OccursAt(r, q, 0) {
            forall j | 0 <= j < |q| ensures r[j] !in rep { assert r[j] == q[j]; }
            ReplaceAllKeepsPrefix(s, pat, rep, |q|);
            assert OccursAt(s, q, 0);
          }
        } else if OccursAt(r, q, i) {
          assert r'[i - 1..i - 1 + |q|] == r[i..i + |q|];
          assert OccursAt(r', q, i - 1);
        }
      }
    }
  }

  /** Dropping the first character shifts the positions free of `pat` down by one. */
  lemma NoneBetweenTail(s: string, pat: string, upto: int)
    requires s != [] && NoneBetween(s, pat, 0, upto)
    ensures NoneBetween(s[1..], pat, 0, upto - 1)
  {
    forall i | 0 <= i < upto - 1 ensures !OccursAt(s[1..], pat, i) {
      assert !OccursAt(s, pat, i + 1);
      if i + |pat| <= |s| - 1 {
        assert s[1..][i..i + |pat|] == s[i + 1..i + 1 + |pat|];
      }
    }
  }

  /** A prefix at none of whose positions `pat` starts is copied through unchanged. */
  lemma {:induction false} ReplaceAllSkips(a: string, t: string, pat: string, rep: string)
    requires |pat| > 0
    requires NoneBetween(a + t, pat, 0, |a|)
    ensures ReplaceAll(a + t, pat, rep) == a + ReplaceAll(t, pat, rep)
    decreases |a|
  {
    var s := a + t;
    if a != [] {
      assert s[1..] == a[1..] + t;
      NoneBetweenTail(s, pat, |a|);
      ReplaceAllSkips(a[1..], t, pat, rep);
      assert a == [a[0]] + a[1..];
      var r := ReplaceAll(t, pat, rep);
      if |s| < |pat| {
        assert ReplaceAll(s, pat, rep) == s && r == t;
      } else {
        assert !OccursAt(s, pat, 0);
        calc {
          ReplaceAll(s, pat, rep);
          [a[0]] + ReplaceAll(a[1..] + t, pat, rep);
          [a[0]] + (a[1..] + r);
          ([a[0]] + a[1..]) + r;
        }
      }
    } else {
      assert s == t;
    }
  }

  /** With a borderless `pat`, no occurrence of it starts inside a `pat`-free `a` in `a + pat + b`. */
  lemma NoStraddle(a: string, pat: string, b: string)
    requires Borderless(pat) && !Contains(a, pat)
    ensures NoneBetween(a + pat + b, pat, 0, |a|)
  {
    var s := a + pat + b;
    forall i | 0 <= i < |a| ensures !OccursAt(s, pat, i) {
      if i + |pat| <= |a| {
        assert a[i..i + |pat|] == s[i..i + |pat|];
        assert !OccursAt(a, pat, i);
      } else {
        var k := i + |pat| - |a|;
        assert s[|a|..i + |pat|] == pat[..k];
        assert s[i..i + |pat|][|pat| - k..] == s[|a|..i + |pat|];
        assert pat[..k] != pat[|pat| - k..];
      }
    }
  }

  /**
   * Replacing a borderless `pat` in a join of `pat`-free parts puts `rep` in
   * the place of every separator and changes nothing else.
   */
  lemma {:induction false} ReplaceAllJoin(parts: seq<string>, pat: string, rep: string)
    requires |pat| > 0 && Borderless(pat) && |parts| > 0
    requires forall p :: p in parts ==> !Contains(p, pat)
    ensures ReplaceAll(Join(parts, pat), pat, rep) == Join(parts, rep)
    decreases |parts|
  {
    if |parts| == 1 {
      var a := parts[0];
      assert a in parts && a + [] == a;
      assert NoneBetween(a + [], pat, 0, |a|) by {
        forall i | 0 <= i < |a| ensures !OccursAt(a + [], pat, i) {
          assert !OccursAt(a, pat, i);
        }
      }
      ReplaceAllSkips(a, [], pat, rep);
    } else {
      var a, tail := parts[0], Join(parts[1..], pat);
      assert Join(parts, pat) == a + (pat + tail);
      assert a + pat + tail == a + (pat + tail);
      NoStraddle(a, pat, tail);
      ReplaceAllSkips(a, pat + tail, pat, rep);
      assert (pat + tail)[..|pat|] == pat && (pat + tail)[|pat|..] == tail;
      ReplaceAllJoin(parts[1..], pat, rep);
    }
  }

  // ---------------------------------------------------------------------
  // Decimal rendering
  // ---------------------------------------------------------------------

  /** The character of a decimal digit. */
  function DigitChar(d: int): (c: char)
    requires 0 <= d < 10
    ensures '0' <= c <= '9' && c as int - '0' as int == d
  {
    (d + '0' as int) as char
  }

  predicate IsDigit(c: char) { '0' <= c <= '9' }

  /** The decimal digits of a natural number, most significant first, no leading zeros. */
  function NatDecimal(n: nat): (s: string)
    ensures |s| > 0 && (forall c :: c in s ==> IsDigit(c))
    ensures |s| > 1 ==> s[0] != '0'
  {
    if n < 10 then [DigitChar(n)] else NatDecimal(n / 10) + [DigitChar(n % 10)]
  }

  /** `String(n)` for a Swift integer: a minus sign for negative values, then the digits. */
  function Decimal(n: int): (s: string)
    ensures |s| > 0 && forall c :: c in s ==> IsDigit(c) || c == '-'
  {
    if n < 0 then "-" + NatDecimal(-n) else NatDecimal(n)
  }

  /** The number a string of decimal digits denotes. */
  function DigitsValue(s: string): nat
    requires forall c :: c in s ==> IsDigit(c)
  {
    if s == [] then 0
    else
      assert IsDigit(s[|s| - 1]) by { assert s[|s| - 1] in s; }
      var d := s[|s| - 1] as int - '0' as int;
      assert forall c :: c in s[..|s| - 1] ==> c in s;
      10 * DigitsValue(s[..|s| - 1]) + d
  }

  /** Reading an optionally-signed decimal back as a number. */
  function ParseDecimal(s: string): int
    requires forall i :: 0 < i < |s| ==> IsDigit(s[i])
    requires |s| > 0 && s[0] != '-' ==> IsDigit(s[0])
  {
    if |s| > 0 && s[0] == '-' then
      assert forall c :: c in s[1..] ==> IsDigit(c);
      -(DigitsValue(s[1..]) as int)
    else DigitsValue(s)
  }

  /** The digits denote the number they were made from. */
  lemma {:induction false} NatDecimalValue(n: nat)
    ensures DigitsValue(NatDecimal(n)) == n
  {
    if n >= 10 {
      NatDecimalValue(n / 10);
      var s := NatDecimal(n);
      assert s[..|s| - 1] == NatDecimal(n / 10);
    }
  }

  /** `String(n)` read back is `n`. */
  lemma DecimalRoundTrip(n: int)
    ensures ParseDecimal(Decimal(n)) == n
  {
    if n < 0 {
      NatDecimalValue(-n);
      assert Decimal(n)[1..] == NatDecimal(-n);
    } else {
      NatDecimalValue(n);
      assert NatDecimal(n)[0] in NatDecimal(n);
    }
  }
}
