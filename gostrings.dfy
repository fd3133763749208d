/**
 * The parts of Go's `strings`, `strconv` and `fmt` packages that the gallery
 * generator relies on, written out with Go's semantics (strings as sequences
 * of characters; only ASCII case mapping).
 */
module GoStrings {

  datatype Option<+T> = None | Some(value: T)

  /** strings.HasPrefix */
  predicate HasPrefix(s: string, prefix: string) {
    |prefix| <= |s| && s[..|prefix|] == prefix
  }

  /** strings.Contains: `sub` occurs somewhere in `s`. */
  predicate Contains(s: string, sub: string)
    decreases |s|
  {
    HasPrefix(s, sub) || (s != [] && Contains(s[1..], sub))
  }

  /** `sub` occurs in `s` starting at position `i`. */
  predicate OccursAt(s: string, sub: string, i: int) {
    0 <= i <= |s| - |sub| && s[i..i + |sub|] == sub
  }

  /** `Contains` agrees with the positional definition of a substring. */
  lemma {:induction false} ContainsAt(s: string, sub: string)
    ensures Contains(s, sub) <==> exists i :: OccursAt(s, sub, i)
    decreases |s|
  {
    if HasPrefix(s, sub) {
      assert OccursAt(s, sub, 0);
    } else if s == [] {
    } else {
      ContainsAt(s[1..], sub);
      if exists i :: OccursAt(s, sub, i) {
        var i :| OccursAt(s, sub, i);
        assert i != 0;
        assert s[1..][i - 1..i - 1 + |sub|] == s[i..i + |sub|];
        assert OccursAt(s[1..], sub, i - 1);
      }
      if Contains(s[1..], sub) {
        var i :| OccursAt(s[1..], sub, i);
        assert s[i + 1..i + 1 + |sub|] == s[1..][i..i + |sub|];
        assert OccursAt(s, sub, i + 1);
      }
    }
  }

  /** Index of the first occurrence of `c` in `s`, or -1 (strings.IndexByte). */
  function IndexOf(s: string, c: char): (k: int)
    ensures -1 <= k < |s|
    ensures k == -1 <==> c !in s
    ensures k >= 0 ==> s[k] == c && c !in s[..k]
    decreases |s|
  {
    if s == [] then -1
    else if s[0] == c then 0
    else
      var k := IndexOf(s[1..], c);
      assert s[1..][..if k < 0 then 0 else k] == s[1..if k < 0 then 1 else k + 1];
      if k < 0 then -1 else k + 1
  }

  /** `k` is the position of the first `c` in `s`. */
  lemma IndexOfUnique(s: string, c: char, k: int)
    requires 0 <= k < |s| && s[k] == c && c !in s[..k]
    ensures IndexOf(s, c) == k
  {
    var m := IndexOf(s, c);
    forall j | 0 <= j < k ensures s[j] != c { assert s[..k][j] == s[j]; }
    forall j | 0 <= j < m ensures s[j] != c { assert s[..m][j] == s[j]; }
  }

  /** Index of the last occurrence of `c` in `s`, or -1 (strings.LastIndexByte). */
  function LastIndexOf(s: string, c: char): (k: int)
    ensures -1 <= k < |s|
    ensures k == -1 <==> c !in s
    ensures k >= 0 ==> s[k] == c && c !in s[k + 1..]
    decreases |s|
  {
    if s == [] then -1
    else if s[|s| - 1] == c then |s| - 1
    else
      var init := s[..|s| - 1];
      var k := LastIndexOf(init, c);
      assert s == init + [s[|s| - 1]];
      assert k >= 0 ==> s[k + 1..] == init[k + 1..] + [s[|s| - 1]];
      k
  }

  /** strings.TrimLeft(s, string(c)): drop every leading `c`. */
  function TrimLeft(s: string, c: char): (r: string)
    ensures |r| <= |s| && r == s[|s| - |r|..]
    ensures r == [] || r[0] != c
    ensures forall i :: 0 <= i < |s| - |r| ==> s[i] == c
    decreases |s|
  {
    if s != [] && s[0] == c then TrimLeft(s[1..], c) else s
  }

  /** strings.Trim(s, string(c)): drop every leading and every trailing `c`. */
  function Trim(s: string, c: char): (r: string)
    ensures r == [] || (r[0] != c && r[|r| - 1] != c)
    ensures |r| <= |s|
    decreases |s|
  {
    if s == [] then s
    else if s[0] == c then Trim(s[1..], c)
    else if s[|s| - 1] == c then Trim(s[..|s| - 1], c)
    else s
  }

  /** strings.SplitN(s, string(c), 2): split at the first `c`, if any. */
  function SplitN2(s: string, c: char): (parts: seq<string>)
    ensures |parts| == 1 <==> c !in s
    ensures |parts| == 1 ==> parts[0] == s
    ensures |parts| == 2 ==> c !in parts[0] && s == parts[0] + [c] + parts[1]
    ensures 1 <= |parts| <= 2
  {
    var k := IndexOf(s, c);
    if k < 0 then [s] else [s[..k], s[k + 1..]]
  }

  /** strings.Split(s, string(c)): every piece between occurrences of `c`. */
  function Split(s: string, c: char): (parts: seq<string>)
    ensures |parts| >= 1
    ensures |parts| == 1 <==> c !in s
    ensures forall i :: 0 <= i < |parts| ==> c !in parts[i]
    decreases |s|
  {
    var k := IndexOf(s, c);
    if k < 0 then [s] else [s[..k]] + Split(s[k + 1..], c)
  }

  /** strings.Join */
  function Join(parts: seq<string>, sep: string): string
    decreases |parts|
  {
    if parts == [] then ""
    else if |parts| == 1 then parts[0]
    else parts[0] + sep + Join(parts[1..], sep)
  }

  lemma {:induction false} JoinAppend(parts: seq<string>, last: string, sep: string)
    requires parts != []
    ensures Join(parts + [last], sep) == Join(parts, sep) + sep + last
    decreases |parts|
  {
    if |parts| == 1 {
      assert parts + [last] == [parts[0], last];
    } else {
      assert (parts + [last])[1..] == parts[1..] + [last];
      JoinAppend(parts[1..], last, sep);
    }
  }

  /** Joining the pieces of a split with the split character gives back the input. */
  lemma {:induction false} JoinSplit(s: string, c: char)
    ensures Join(Split(s, c), [c]) == s
    decreases |s|
  {
    var k := IndexOf(s, c);
    if k >= 0 {
      JoinSplit(s[k + 1..], c);
      JoinCons(s[..k], Split(s[k + 1..], c), [c]);
      Around(s, k);
    }
  }

  lemma JoinCons(a: string, rest: seq<string>, sep: string)
    requires rest != []
    ensures Join([a] + rest, sep) == a + sep + Join(rest, sep)
  {
    assert ([a] + rest)[1..] == rest;
  }

  /** A sequence is the part before position k, the element at k, and the part after it. */
  lemma Around<T>(s: seq<T>, k: int)
    requires 0 <= k < |s|
    ensures s == s[..k] + [s[k]] + s[k + 1..]
  {
  }

  /** A non-empty sequence is its prefix without the last element, then that element. */
  lemma Snoc<T>(s: seq<T>)
    requires s != []
    ensures s == s[..|s| - 1] + [s[|s| - 1]]
  {
  }

  /** Concatenation is associative. */
  lemma ConcatAssoc<T>(a: seq<T>, b: seq<T>, c: seq<T>)
    ensures (a + b) + c == a + (b + c)
  {
  }

  /** Keeping or dropping the middle element. */
  lemma KeepMiddle<T>(a: seq<T>, x: T, b: seq<T>, keep: bool)
    ensures a + (if keep then [x] else []) + b == if keep then a + [x] + b else a + b
  {
    if !keep {
      assert a + [] == a;
    }
  }

  /** The parts around a middle element, read back. */
  lemma Parts<T>(a: seq<T>, x: T, b: seq<T>)
    ensures (a + [x] + b)[..|a|] == a && (a + [x] + b)[|a| + 1..] == b
  {
  }

  lemma DropOne<T>(s: seq<T>, k: int)
    requires 0 <= k < |s|
    ensures s[k..] == [s[k]] + s[k + 1..]
  {
  }

  /** Split unfolded at the first separator. */
  lemma SplitFirst(s: string, c: char, k: int)
    requires 0 <= k < |s| && s[k] == c && c !in s[..k]
    ensures Split(s, c) == [s[..k]] + Split(s[k + 1..], c)
  {
    IndexOfUnique(s, c, k);
  }

  lemma SplitConcatNoSep(a: string, c: char, b: string)
    requires c !in a
    ensures Split(a + [c] + b, c) == [a] + Split(b, c)
  {
    var s := a + [c] + b;
    assert s[..|a|] == a;
    assert s[|a| + 1..] == b;
    SplitFirst(s, c, |a|);
  }

  lemma ConsAssoc(x: string, xs: seq<string>, ys: seq<string>)
    ensures [x] + (xs + ys) == ([x] + xs) + ys
  {
  }

  /** Splitting around one separator splits both sides independently. */
  lemma {:induction false} SplitConcat(a: string, c: char, b: string)
    ensures Split(a + [c] + b, c) == Split(a, c) + Split(b, c)
    decreases |a|
  {
    var k := IndexOf(a, c);
    if k < 0 {
      SplitConcatNoSep(a, c, b);
    } else {
      var s := a + [c] + b;
      var t := a[k + 1..];
      assert Split(s, c) == [a[..k]] + Split(t + [c] + b, c) by {
        assert s[..k] == a[..k];
        assert s[k + 1..] == t + [c] + b;
        SplitFirst(s, c, k);
      }
      assert Split(a, c) == [a[..k]] + Split(t, c) by {
        SplitFirst(a, c, k);
      }
      SplitConcat(t, c, b);
      ConsAssoc(a[..k], Split(t, c), Split(b, c));
    }
  }

  /** Splitting at a final separator adds exactly one piece at the end. */
  lemma SplitAppend(a: string, c: char, b: string)
    requires c !in b
    ensures Split(a + [c] + b, c) == Split(a, c) + [b]
  {
    SplitConcat(a, c, b);
  }

  /** Split at the last separator: everything before it, and the tail. */
  lemma SplitAtLast(s: string, c: char)
    requires c in s
    ensures var k := LastIndexOf(s, c);
      Split(s, c) == Split(s[..k], c) + [s[k + 1..]]
  {
    var k := LastIndexOf(s, c);
    assert s == s[..k] + [c] + s[k + 1..];
    SplitAppend(s[..k], c, s[k + 1..]);
  }

  // ---- decimal numbers -------------------------------------------------

  predicate IsDigit(ch: char) { '0' <= ch <= '9' }

  predicate AllDigits(s: string) { forall i :: 0 <= i < |s| ==> IsDigit(s[i]) }

  /** Value of a string of decimal digits, most significant first. */
  function DigitsValue(s: string): (n: nat)
    requires AllDigits(s)
    decreases |s|
  {
    if s == [] then 0
    else DigitsValue(s[..|s| - 1]) * 10 + (s[|s| - 1] as int - '0' as int)
  }

  /** The bounds of Go's `int`, which is 64 bits wide on the platforms the program targets. */
  const MaxInt: int := 0x7fff_ffff_ffff_ffff
  const MinInt: int := -0x8000_0000_0000_0000

  /**
   * The syntax strconv.Atoi accepts, an optional sign followed by at least
   * one decimal digit, and the value it denotes with no range limit; None on
   * a syntax error.
   */
  function ParseDecimal(s: string): (r: Option<int>)
    ensures r.Some? <==> s != [] && (AllDigits(s) || ((s[0] == '-' || s[0] == '+') && |s| > 1 && AllDigits(s[1..])))
  {
    if s == [] then None
    else if s[0] == '-' || s[0] == '+' then
      if |s| > 1 && AllDigits(s[1..]) then
        var v: int := DigitsValue(s[1..]);
        Some(if s[0] == '-' then -v else v)
      else None
    else if AllDigits(s) then Some(DigitsValue(s))
    else None
  }

  /** strconv.Atoi without its error: the value, or None on a syntax error or a value outside int. */
  function Atoi(s: string): (r: Option<int>)
    ensures r.Some? <==> ParseDecimal(s).Some? && MinInt <= ParseDecimal(s).value <= MaxInt
    ensures r.Some? ==> r.value == ParseDecimal(s).value
  {
    match ParseDecimal(s)
      case Some(v) => if MinInt <= v <= MaxInt then Some(v) else None
      case None => None
  }

  /** The largest value strconv.ParseUint reads into a uint64. */
  const MaxUint64: int := 0xffff_ffff_ffff_ffff

  /** The longest prefix of s made of decimal digits. */
  function LeadingDigits(s: string): (d: string)
    ensures AllDigits(d) && |d| <= |s| && d == s[..|d|]
    ensures |d| < |s| ==> !IsDigit(s[|d|])
    decreases |s|
  {
    if s != [] && IsDigit(s[0]) then [s[0]] + LeadingDigits(s[1..]) else []
  }

  /** s without the one leading sign strconv.ParseInt strips. */
  function Unsigned(s: string): string {
    if s != [] && (s[0] == '-' || s[0] == '+') then s[1..] else s
  }

  /**
   * strconv.ParseUint reads digit by digit and stops with a range error as
   * soon as the value read passes 2^64-1, before it meets a later character
   * that is not a digit: this happens exactly when the run of digits after
   * the sign denotes more than 2^64-1.
   */
  predicate RangeBeforeSyntax(s: string) {
    DigitsValue(LeadingDigits(Unsigned(s))) > MaxUint64
  }

  /**
   * The int strconv.Atoi returns beside its error: 0 after a syntax error,
   * and the int bound on the side of the sign after a range error, which
   * ParseUint reports before any syntax error that follows the digits.
   */
  function AtoiValue(s: string): (n: int)
    ensures MinInt <= n <= MaxInt
    ensures Atoi(s).Some? ==> n == Atoi(s).value
    ensures ParseDecimal(s).None? && !RangeBeforeSyntax(s) ==> n == 0
    ensures ParseDecimal(s).Some? && ParseDecimal(s).value > MaxInt ==> n == MaxInt
    ensures ParseDecimal(s).Some? && ParseDecimal(s).value < MinInt ==> n == MinInt
  {
    match ParseDecimal(s)
      case Some(v) => if v > MaxInt then MaxInt else if v < MinInt then MinInt else v
      case None => if RangeBeforeSyntax(s) then (if s[0] == '-' then MinInt else MaxInt) else 0
  }

  /** Appending digits never lowers the value. */
  lemma {:induction false} DigitsValueGrows(d: string, e: string)
    requires AllDigits(d + e)
    ensures AllDigits(d) && DigitsValue(d + e) >= DigitsValue(d)
    decreases |e|
  {
    assert forall i :: 0 <= i < |d| ==> d[i] == (d + e)[i];
    if e == [] {
      assert d + e == d;
    } else {
      var e' := e[..|e| - 1];
      assert (d + e)[..|d + e| - 1] == d + e';
      assert forall i :: 0 <= i < |d + e'| ==> (d + e')[i] == (d + e)[i];
      DigitsValueGrows(d, e');
    }
  }

  /** The leading digit run of d + t, for digits d, starts with d. */
  lemma LeadingDigitsAppend(d: string, t: string)
    requires AllDigits(d)
    ensures var l := LeadingDigits(d + t); |d| <= |l| && l == d + l[|d|..]
  {
    var l := LeadingDigits(d + t);
    assert l == (d + t)[..|l|];
    assert l[..|d|] == d;
  }

  /** A range error before any syntax error: Atoi fails, with the bound on the side of the sign. */
  lemma AtoiValueRange(s: string)
    requires RangeBeforeSyntax(s)
    ensures s != [] && Atoi(s).None?
    ensures AtoiValue(s) == if s[0] == '-' then MinInt else MaxInt
  {
    if ParseDecimal(s).Some? {
      var u := Unsigned(s);
      assert AllDigits(u);
      LeadingDigitsAppend(u, []);
      assert u + [] == u;
    }
  }

  /** The digit run of d + t, for digits d, is worth at least d. */
  lemma RunAtLeast(d: string, t: string)
    requires AllDigits(d)
    ensures DigitsValue(LeadingDigits(d + t)) >= DigitsValue(d)
  {
    LeadingDigitsAppend(d, t);
    var l := LeadingDigits(d + t);
    DigitsValueGrows(d, l[|d|..]);
  }

  /**
   * A digit run above 2^64-1 is a range error whatever follows it: Atoi
   * fails and returns MaxInt, or MinInt after a minus sign.
   */
  lemma AtoiRangeFirst(d: string, t: string)
    requires AllDigits(d) && DigitsValue(d) > MaxUint64
    ensures var s := d + t;
      Atoi(s).None? && AtoiValue(s) == MaxInt &&
      Atoi("+" + s).None? && AtoiValue("+" + s) == MaxInt &&
      Atoi("-" + s).None? && AtoiValue("-" + s) == MinInt
  {
    var s := d + t;
    RunAtLeast(d, t);
    assert d != [] && s[0] == d[0];
    assert Unsigned(s) == s;
    assert ("+" + s)[1..] == s;
    assert ("-" + s)[1..] == s;
    AtoiValueRange(s);
    AtoiValueRange("+" + s);
    AtoiValueRange("-" + s);
  }

  /** fmt.Sprintf("%d", n) for a natural number. */
  function NatToString(n: nat): (s: string)
    ensures s != [] && AllDigits(s)
    decreases n
  {
    var d := ['0' + ((n % 10) as char)];
    if n < 10 then d else NatToString(n / 10) + d
  }

  /** fmt.Sprintf("%d", n). */
  function Itoa(n: int): (s: string)
    ensures s != []
  {
    if n < 0 then "-" + NatToString(-n) else NatToString(n)
  }

  lemma {:induction false} DigitsOfNatToString(n: nat)
    ensures DigitsValue(NatToString(n)) == n
    decreases n
  {
    var s := NatToString(n);
    if n >= 10 {
      DigitsOfNatToString(n / 10);
      assert s[..|s| - 1] == NatToString(n / 10);
    }
  }

  /** ParseDecimal reads back what Itoa prints. */
  lemma ParseItoa(n: int)
    ensures ParseDecimal(Itoa(n)) == Some(n)
  {
    if n < 0 {
      DigitsOfNatToString(-n);
      assert Itoa(n)[1..] == NatToString(-n);
    } else {
      DigitsOfNatToString(n);
      assert IsDigit(Itoa(n)[0]);
    }
  }

  /**
   * Atoi reads back the decimal text of every int; the text of a value
   * outside int is a range error, and the value returned with it is the
   * nearer bound.
   */
  lemma AtoiItoa(n: int)
    ensures MinInt <= n <= MaxInt ==> Atoi(Itoa(n)) == Some(n)
    ensures n > MaxInt ==> Atoi(Itoa(n)) == None && AtoiValue(Itoa(n)) == MaxInt
    ensures n < MinInt ==> Atoi(Itoa(n)) == None && AtoiValue(Itoa(n)) == MinInt
  {
    ParseItoa(n);
  }

  // ---- case and character replacement ---------------------------------

  function LowerChar(ch: char): char {
    if 'A' <= ch <= 'Z' then (ch as int + 32) as char else ch
  }

  /** strings.ToLower, restricted to the ASCII letters. */
  function ToLower(s: string): (r: string)
    ensures |r| == |s|
    ensures forall i :: 0 <= i < |r| ==> !('A' <= r[i] <= 'Z')
    ensures forall i :: 0 <= i < |s| && !('A' <= s[i] <= 'Z') ==> r[i] == s[i]
    ensures forall i :: 0 <= i < |s| && 'A' <= s[i] <= 'Z' ==>
      'a' <= r[i] <= 'z' && r[i] as int - 'a' as int == s[i] as int - 'A' as int
  {
    seq(|s|, i requires 0 <= i < |s| => LowerChar(s[i]))
  }

  /** Lowering twice is lowering once. */
  lemma ToLowerIdempotent(s: string)
    ensures ToLower(ToLower(s)) == ToLower(s)
  {
  }

  /** strings.Replace(s, string(a), string(b), -1) for single characters. */
  function ReplaceAll(s: string, a: char, b: char): (r: string)
    ensures |r| == |s|
    ensures a != b ==> a !in r
    ensures forall i :: 0 <= i < |s| && s[i] != a ==> r[i] == s[i]
  {
    seq(|s|, i requires 0 <= i < |s| => if s[i] == a then b else s[i])
  }

  lemma ReplaceAllConcat(x: string, y: string, a: char, b: char)
    ensures ReplaceAll(x + y, a, b) == ReplaceAll(x, a, b) + ReplaceAll(y, a, b)
  {
  }

  /**
   * Replacing every `a` by `b` is splitting at each `a` and joining the
   * pieces with `b`, which is how strings.Replace is documented.
   */
  lemma {:induction false} ReplaceAllJoinSplit(s: string, a: char, b: char)
    ensures ReplaceAll(s, a, b) == Join(Split(s, a), [b])
    decreases |s|
  {
    var k := IndexOf(s, a);
    if k >= 0 {
      ReplaceAllJoinSplit(s[k + 1..], a, b);
      JoinCons(s[..k], Split(s[k + 1..], a), [b]);
      Around(s, k);
      ReplaceAllConcat(s[..k] + [s[k]], s[k + 1..], a, b);
      ReplaceAllConcat(s[..k], [s[k]], a, b);
      assert ReplaceAll(s[..k], a, b) == s[..k];
    }
  }
}
