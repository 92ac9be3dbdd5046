/**
 * The parts of java.lang.String and java.lang.Integer that the migration listener relies on:
 * trim(), Integer.parseInt/valueOf, split on a literal separator, replaceAll of a line feed and
 * the compareTo order of strings. A Dafny char stands for one UTF-16 code unit.
 */
module JavaText {
  import opened Wrappers

  const IntMinValue: int := -0x8000_0000
  const IntMaxValue: int := 0x7fff_ffff

  // ------------------------------------------------------------------ String.trim()

  /** trim() removes every leading and trailing character whose code is at most U+0020. */
  predicate IsTrimmable(c: char) { c <= ' ' }

  function TrimStart(s: string): string
  {
    if s != [] && IsTrimmable(s[0]) then TrimStart(s[1..]) else s
  }

  /** TrimStart cuts exactly the leading run of trimmable characters. */
  lemma {:induction false} TrimStartSpec(s: string)
    ensures var r := TrimStart(s);
      |r| <= |s| && r == s[|s| - |r|..] &&
      (r != [] ==> !IsTrimmable(r[0])) &&
      (forall i :: 0 <= i < |s| - |r| ==> IsTrimmable(s[i]))
  {
    if s != [] && IsTrimmable(s[0]) {
      TrimStartSpec(s[1..]);
      assert forall i :: 1 <= i < |s| ==> s[1..][i - 1] == s[i];
    }
  }

  function TrimEnd(s: string): string
  {
    if s != [] && IsTrimmable(s[|s| - 1]) then TrimEnd(s[..|s| - 1]) else s
  }

  /** TrimEnd cuts exactly the trailing run of trimmable characters. */
  lemma {:induction false} TrimEndSpec(s: string)
    ensures var r := TrimEnd(s);
      |r| <= |s| && r == s[..|r|] &&
      (r != [] ==> !IsTrimmable(r[|r| - 1])) &&
      (forall i :: |r| <= i < |s| ==> IsTrimmable(s[i]))
  {
    if s != [] && IsTrimmable(s[|s| - 1]) {
      TrimEndSpec(s[..|s| - 1]);
    }
  }

  /** String.trim(): cut the trimmable characters from both ends. */
  function Trim(s: string): string
  {
    TrimEnd(TrimStart(s))
  }

  /**
   * What trim() leaves is the infix of s between its leading and its trailing runs of
   * characters at most U+0020, and it starts and ends with a character above U+0020.
   */
  lemma TrimSpec(s: string)
    ensures var r := Trim(s);
      (r == [] || (!IsTrimmable(r[0]) && !IsTrimmable(r[|r| - 1]))) &&
      var a := |s| - |TrimStart(s)|;
      0 <= a && a + |r| <= |s| && r == s[a..a + |r|] &&
      (forall i :: 0 <= i < a ==> IsTrimmable(s[i])) &&
      (forall i :: a + |r| <= i < |s| ==> IsTrimmable(s[i]))
  {
    var t := TrimStart(s);
    var r := TrimEnd(t);
    var a := |s| - |t|;
    assert 0 <= a && t == s[a..] && (t != [] ==> !IsTrimmable(t[0])) &&
      (forall i :: 0 <= i < a ==> IsTrimmable(s[i])) by { TrimStartSpec(s); }
    assert |r| <= |t| && r == t[..|r|] && (r != [] ==> !IsTrimmable(r[|r| - 1])) &&
      (forall i :: |r| <= i < |t| ==> IsTrimmable(t[i])) by { TrimEndSpec(t); }
    assert r == s[a..a + |r|];
    forall i | a + |r| <= i < |s|
      ensures IsTrimmable(s[i])
    {
      assert s[i] == t[i - a];
    }
    if r != [] {
      assert r[0] == t[0];
    }
  }

  // ------------------------------------------------------ Integer.parseInt / valueOf

  predicate IsDigit(c: char) { '0' <= c <= '9' }

  predicate AllDigits(s: string) { forall i :: 0 <= i < |s| ==> IsDigit(s[i]) }

  /** The value of a run of decimal digits, most significant first. */
  function DigitsValue(s: string): nat
    requires AllDigits(s)
  {
    if s == [] then 0
    else
      var last := s[|s| - 1];
      assert IsDigit(last);
      DigitsValue(s[..|s| - 1]) * 10 + (last as int - '0' as int)
  }

  /**
   * The digit loop of parseInt: the value of s read as decimal digits, most significant first;
   * none as soon as a character is not a digit.
   */
  function ParseDigits(s: string): Option<nat>
  {
    if s == [] then Some(0)
    else
      var last := s[|s| - 1];
      if !IsDigit(last) then None
      else
        match ParseDigits(s[..|s| - 1])
        case None => None
        case Some(n) => Some(n * 10 + (last as int - '0' as int) as nat)
  }

  /** The digit loop accepts exactly the runs of digits, and reads their value. */
  lemma {:induction false} ParseDigitsValue(s: string)
    ensures ParseDigits(s) == if AllDigits(s) then Some(DigitsValue(s)) else None
  {
    if s != [] {
      var init := s[..|s| - 1];
      ParseDigitsValue(init);
      assert AllDigits(s) <==> AllDigits(init) && IsDigit(s[|s| - 1]) by {
        assert forall i :: 0 <= i < |init| ==> init[i] == s[i];
      }
    }
  }

  /**
   * Integer.parseInt(s, 10), which Integer.valueOf(s) also uses: an optional '+' or '-', then
   * one or more decimal digits (leading zeros allowed) whose value fits in a Java int.
   * None stands for the NumberFormatException thrown on anything else.
   */
  function ParseInt(s: string): (r: Option<int>)
    ensures r.Some? ==> IntMinValue <= r.value <= IntMaxValue
  {
    if s == [] then None
    else
      var negative := s[0] == '-';
      var digits := if s[0] == '-' || s[0] == '+' then s[1..] else s;
      if digits == [] then None
      else
        match ParseDigits(digits)
        case None => None
        case Some(n) =>
          var value: int := if negative then -(n as int) else n;
          if IntMinValue <= value <= IntMaxValue then Some(value) else None
  }

  /** Integer.toString(n) for n >= 0: the decimal digits of n without leading zeros. */
  function Decimal(n: nat): (r: string)
    ensures r != [] && AllDigits(r)
    ensures DigitsValue(r) == n
    ensures n > 0 ==> r[0] != '0'
  {
    if n < 10 then
      [('0' as int + n) as char]
    else
      var r := Decimal(n / 10) + [('0' as int + n % 10) as char];
      assert r[..|r| - 1] == Decimal(n / 10);
      r
  }

  /** k zero digits. */
  function Zeros(k: nat): (r: string)
    ensures |r| == k && AllDigits(r)
  {
    seq(k, _ => '0')
  }

  lemma {:induction false} ZerosValue(k: nat)
    ensures DigitsValue(Zeros(k)) == 0
  {
    if k > 0 {
      assert Zeros(k)[..k - 1] == Zeros(k - 1);
      ZerosValue(k - 1);
    }
  }

  /** Leading zeros do not change the value of a run of digits. */
  lemma {:induction false} LeadingZerosValue(k: nat, ds: string)
    requires AllDigits(ds)
    ensures AllDigits(Zeros(k) + ds) && DigitsValue(Zeros(k) + ds) == DigitsValue(ds)
  {
    var s := Zeros(k) + ds;
    assert AllDigits(s) by {
      forall i | 0 <= i < |s| ensures IsDigit(s[i]) {
        if i >= k { assert s[i] == ds[i - k]; }
      }
    }
    if ds == [] {
      assert s == Zeros(k);
      ZerosValue(k);
    } else {
      assert s[..|s| - 1] == Zeros(k) + ds[..|ds| - 1];
      LeadingZerosValue(k, ds[..|ds| - 1]);
    }
  }

  /** parseInt reads back what toString printed, for every non-negative int. */
  lemma ParseIntDecimal(n: nat)
    requires n <= IntMaxValue
    ensures ParseInt(Decimal(n)) == Some(n)
  {
    var d := Decimal(n);
    assert d[0] != '-' && d[0] != '+' by { assert IsDigit(d[0]); }
    ParseDigitsValue(d);
  }

  /** parseInt of digits, with or without a '+' in front: their value when it fits in an int. */
  lemma ParseIntUnsigned(digits: string, plus: bool)
    requires digits != [] && AllDigits(digits)
    ensures ParseInt((if plus then "+" else "") + digits) ==
      if DigitsValue(digits) <= IntMaxValue then Some(DigitsValue(digits)) else None
  {
    var s := (if plus then "+" else "") + digits;
    ParseDigitsValue(digits);
    if plus {
      assert s[0] == '+' && s[1..] == digits;
    } else {
      assert s == digits && IsDigit(s[0]);
    }
  }

  /** Zeros in front of the decimal text of n: still a non-empty digit run whose value is n. */
  lemma PaddedDecimalValue(n: nat, k: nat)
    ensures var digits := Zeros(k) + Decimal(n);
      digits != [] && AllDigits(digits) && DigitsValue(digits) == n
  {
    LeadingZerosValue(k, Decimal(n));
  }

  /** parseInt is lenient: a leading '+' and any number of leading zeros are accepted. */
  lemma ParseIntLenient(n: nat, k: nat, plus: bool)
    requires n <= IntMaxValue
    ensures ParseInt((if plus then "+" else "") + Zeros(k) + Decimal(n)) == Some(n)
  {
    var sign, zeros, decimal := (if plus then "+" else ""), Zeros(k), Decimal(n);
    PaddedDecimalValue(n, k);
    ParseIntUnsigned(zeros + decimal, plus);
    assert sign + zeros + decimal == sign + (zeros + decimal);
  }

  /** A value above Integer.MAX_VALUE does not parse, however it is written. */
  lemma ParseIntOverflow(n: nat, k: nat, plus: bool)
    requires n > IntMaxValue
    ensures ParseInt((if plus then "+" else "") + Zeros(k) + Decimal(n)) == None
  {
    var sign, zeros, decimal := (if plus then "+" else ""), Zeros(k), Decimal(n);
    PaddedDecimalValue(n, k);
    ParseIntUnsigned(zeros + decimal, plus);
    assert sign + zeros + decimal == sign + (zeros + decimal);
  }

  /** Any character that is neither a digit nor a leading sign makes parseInt throw. */
  lemma ParseIntRejectsNonDigit(s: string, i: nat)
    requires i < |s| && !IsDigit(s[i])
    requires i > 0 || (s[0] != '+' && s[0] != '-')
    ensures ParseInt(s) == None
  {
    var digits := if s[0] == '-' || s[0] == '+' then s[1..] else s;
    if s[0] == '-' || s[0] == '+' {
      assert digits[i - 1] == s[i];
    }
    ParseDigitsValue(digits);
  }

  // ----------------------------------------------- String.split with a literal separator

  /** Every piece of s between occurrences of sep, empty pieces included; never fewer than one. */
  function SplitAll(s: string, sep: char): (r: seq<string>)
    ensures |r| >= 1
  {
    if s == [] then [[]]
    else
      var init := SplitAll(s[..|s| - 1], sep);
      var c := s[|s| - 1];
      if c == sep then init + [[]]
      else init[..|init| - 1] + [init[|init| - 1] + [c]]
  }

  /** No piece contains the separator. */
  lemma {:induction false} SplitAllPieces(s: string, sep: char)
    ensures forall i :: 0 <= i < |SplitAll(s, sep)| ==> sep !in SplitAll(s, sep)[i]
  {
    if s != [] {
      var init := SplitAll(s[..|s| - 1], sep);
      SplitAllPieces(s[..|s| - 1], sep);
      var c := s[|s| - 1];
      if c != sep {
        var last := init[|init| - 1];
        assert sep !in last;
        assert sep !in last + [c];
      }
    }
  }

  /** The pieces joined back together with sep between neighbours. */
  function Join(ps: seq<string>, sep: char): string
  {
    if ps == [] then []
    else if |ps| == 1 then ps[0]
    else Join(ps[..|ps| - 1], sep) + [sep] + ps[|ps| - 1]
  }

  /** s without its trailing run of sep characters. */
  function StripTrailing(s: string, sep: char): (r: string)
    ensures |r| <= |s| && r == s[..|r|] && (r == [] || r[|r| - 1] != sep)
    ensures forall i :: |r| <= i < |s| ==> s[i] == sep
  {
    if s != [] && s[|s| - 1] == sep then StripTrailing(s[..|s| - 1], sep) else s
  }

  /** split(regex) with limit 0 removes the empty pieces at the end of the result. */
  function DropTrailingEmpty(ps: seq<string>): seq<string>
  {
    if ps != [] && ps[|ps| - 1] == [] then DropTrailingEmpty(ps[..|ps| - 1]) else ps
  }

  /** What is dropped is exactly the trailing run of empty pieces. */
  lemma {:induction false} DropTrailingEmptySpec(ps: seq<string>)
    ensures var r := DropTrailingEmpty(ps);
      |r| <= |ps| && r == ps[..|r|] && (r == [] || r[|r| - 1] != []) &&
      (forall i :: |r| <= i < |ps| ==> ps[i] == [])
  {
    if ps != [] && ps[|ps| - 1] == [] {
      DropTrailingEmptySpec(ps[..|ps| - 1]);
    }
  }

  /**
   * s.split(sep) for a one-character literal separator: the whole of s when sep does not occur
   * (so "" gives one empty piece), otherwise every piece with the trailing empty ones removed.
   */
  function JavaSplit(s: string, sep: char): seq<string>
  {
    if sep !in s then [s] else DropTrailingEmpty(SplitAll(s, sep))
  }

  /** No piece of split(sep) contains sep. */
  lemma JavaSplitPieces(s: string, sep: char)
    ensures forall i :: 0 <= i < |JavaSplit(s, sep)| ==> sep !in JavaSplit(s, sep)[i]
  {
    if sep in s {
      var pieces := SplitAll(s, sep);
      SplitAllPieces(s, sep);
      DropTrailingEmptySpec(pieces);
      var r := DropTrailingEmpty(pieces);
      assert forall i :: 0 <= i < |r| ==> r[i] == pieces[i];
    }
  }

  /** Joining pieces with one more piece at the end adds a separator and that piece. */
  lemma JoinSnoc(ps: seq<string>, x: string, sep: char)
    requires ps != []
    ensures Join(ps + [x], sep) == Join(ps, sep) + [sep] + x
  {
    assert (ps + [x])[..|ps|] == ps;
  }

  /** Joining pieces whose last piece grows by c grows the joined text by c. */
  lemma JoinExtendLast(ps: seq<string>, c: char, sep: char)
    requires ps != []
    ensures Join(ps[..|ps| - 1] + [ps[|ps| - 1] + [c]], sep) == Join(ps, sep) + [c]
  {
    var init, last := ps[..|ps| - 1], ps[|ps| - 1];
    if init != [] {
      JoinSnoc(init, last + [c], sep);
      JoinSnoc(init, last, sep);
      assert ps == init + [last];
    }
  }

  /** Splitting loses nothing: joining the pieces gives back the string. */
  lemma {:induction false} SplitAllJoin(s: string, sep: char)
    ensures Join(SplitAll(s, sep), sep) == s
  {
    if s != [] {
      var t, c := s[..|s| - 1], s[|s| - 1];
      var ps := SplitAll(t, sep);
      SplitAllJoin(t, sep);
      assert s == t + [c];
      if c == sep {
        assert SplitAll(s, sep) == ps + [[]];
        JoinSnoc(ps, [], sep);
      } else {
        assert SplitAll(s, sep) == ps[..|ps| - 1] + [ps[|ps| - 1] + [c]];
        JoinExtendLast(ps, c, sep);
      }
    }
  }

  /** Joined pieces end with the last character of the last piece, when that piece is not empty. */
  lemma JoinEndsWithLast(ps: seq<string>, sep: char)
    requires ps != [] && ps[|ps| - 1] != []
    ensures var j, last := Join(ps, sep), ps[|ps| - 1];
      j != [] && j[|j| - 1] == last[|last| - 1]
  {
    if |ps| > 1 {
      assert ps == ps[..|ps| - 1] + [ps[|ps| - 1]];
      JoinSnoc(ps[..|ps| - 1], ps[|ps| - 1], sep);
    }
  }

  /** Joined pieces whose last piece is not empty and has no separator have no separator to strip. */
  lemma JoinEndsWithSeparatorFree(ps: seq<string>, sep: char)
    requires ps != [] && ps[|ps| - 1] != [] && sep !in ps[|ps| - 1]
    ensures StripTrailing(Join(ps, sep), sep) == Join(ps, sep)
  {
    var last := ps[|ps| - 1];
    JoinEndsWithLast(ps, sep);
    assert last[|last| - 1] in last;
  }

  lemma StripTrailingSnoc(s: string, sep: char)
    ensures StripTrailing(s + [sep], sep) == StripTrailing(s, sep)
  {
    assert (s + [sep])[..|s|] == s;
  }

  lemma {:induction false} DropTrailingEmptyJoin(ps: seq<string>, sep: char)
    requires |ps| >= 1
    requires forall i :: 0 <= i < |ps| ==> sep !in ps[i]
    ensures Join(DropTrailingEmpty(ps), sep) == StripTrailing(Join(ps, sep), sep)
  {
    var init, last := ps[..|ps| - 1], ps[|ps| - 1];
    if last != [] {
      JoinEndsWithSeparatorFree(ps, sep);
      assert DropTrailingEmpty(ps) == ps;
    } else if init != [] {
      assert forall i :: 0 <= i < |init| ==> init[i] == ps[i];
      assert ps == init + [[]];
      JoinSnoc(init, [], sep);
      assert Join(ps, sep) == Join(init, sep) + [sep];
      StripTrailingSnoc(Join(init, sep), sep);
      assert DropTrailingEmpty(ps) == DropTrailingEmpty(init);
      DropTrailingEmptyJoin(init, sep);
    } else {
      assert DropTrailingEmpty(ps) == [];
    }
  }

  /**
   * What split(";") keeps: joining its pieces gives the string back, minus its trailing
   * separators only, and no piece contains the separator.
   */
  lemma JavaSplitJoin(s: string, sep: char)
    ensures Join(JavaSplit(s, sep), sep) == StripTrailing(s, sep)
  {
    if sep !in s {
      if s != [] { assert s[|s| - 1] in s; }
    } else {
      SplitAllJoin(s, sep);
      SplitAllPieces(s, sep);
      DropTrailingEmptyJoin(SplitAll(s, sep), sep);
    }
  }

  // ------------------------------------------------------------------ split("__")[0]

  /** A "__" separator starts at index i of s. */
  predicate SeparatorAt(s: string, i: int)
  {
    0 <= i && i + 1 < |s| && s[i] == '_' && s[i + 1] == '_'
  }

  /**
   * The text before the first "__", or the whole string when there is none. For a string that
   * does not itself start with "__" this is element 0 of split("__").
   */
  function FirstSegment(s: string): string
  {
    if |s| < 2 then s
    else if s[0] == '_' && s[1] == '_' then []
    else [s[0]] + FirstSegment(s[1..])
  }

  /**
   * The first segment is the prefix of s up to the first "__": no separator starts inside it,
   * and one starts right after it unless it is the whole of s.
   */
  lemma {:induction false} FirstSegmentSpec(s: string)
    ensures var r := FirstSegment(s);
      r <= s &&
      (|r| < |s| ==> SeparatorAt(s, |r|)) &&
      (forall i :: 0 <= i < |r| ==> !SeparatorAt(s, i))
  {
    if |s| >= 2 && !(s[0] == '_' && s[1] == '_') {
      var t := FirstSegment(s[1..]);
      FirstSegmentSpec(s[1..]);
      assert FirstSegment(s) == [s[0]] + t;
      assert [s[0]] + t <= s by { assert s == [s[0]] + s[1..]; }
      if |t| + 1 < |s| {
        assert SeparatorAt(s[1..], |t|);
      }
      forall i | 0 <= i < |t| + 1
        ensures !SeparatorAt(s, i)
      {
        if i > 0 {
          assert !SeparatorAt(s[1..], i - 1);
        }
      }
    }
  }

  /** A text without '_' followed by "__" has exactly that text as its first segment. */
  lemma {:induction false} FirstSegmentBeforeSeparator(p: string, rest: string)
    requires '_' !in p
    ensures FirstSegment(p + "__" + rest) == p
  {
    var s := p + "__" + rest;
    if p != [] {
      assert p[0] in p;
      assert s[1..] == p[1..] + "__" + rest;
      FirstSegmentBeforeSeparator(p[1..], rest);
    }
  }

  // --------------------------------------------------------------- replaceAll("\n", " ")

  /** s.replaceAll("\n", " "): every line feed becomes a space, nothing else changes. */
  function ReplaceLineFeeds(s: string): (r: string)
    ensures |r| == |s|
    ensures forall i :: 0 <= i < |s| ==> r[i] == (if s[i] == '\n' then ' ' else s[i])
  {
    if s == [] then [] else [if s[0] == '\n' then ' ' else s[0]] + ReplaceLineFeeds(s[1..])
  }

  // ------------------------------------------------------------- String.compareTo order

  /** a sorts strictly before b: lexicographic by character code, a proper prefix first. */
  predicate StrLess(a: string, b: string)
  {
    if a == [] then b != []
    else if b == [] then false
    else if a[0] != b[0] then a[0] < b[0]
    else StrLess(a[1..], b[1..])
  }

  lemma {:induction false} StrLessIrreflexive(a: string)
    ensures !StrLess(a, a)
  {
    if a != [] { StrLessIrreflexive(a[1..]); }
  }

  lemma {:induction false} StrLessTransitive(a: string, b: string, c: string)
    requires StrLess(a, b) && StrLess(b, c)
    ensures StrLess(a, c)
  {
    if a != [] && b != [] && c != [] && a[0] == b[0] && b[0] == c[0] {
      StrLessTransitive(a[1..], b[1..], c[1..]);
    }
  }

  lemma {:induction false} StrLessTotal(a: string, b: string)
    ensures a == b || StrLess(a, b) || StrLess(b, a)
  {
    if a != [] && b != [] && a[0] == b[0] {
      StrLessTotal(a[1..], b[1..]);
      if a[1..] == b[1..] {
        assert a == [a[0]] + a[1..] && b == [b[0]] + b[1..];
      }
    }
  }

  lemma StrLessAsymmetric(a: string, b: string)
    ensures !(StrLess(a, b) && StrLess(b, a))
  {
    if StrLess(a, b) && StrLess(b, a) {
      StrLessTransitive(a, b, a);
      StrLessIrreflexive(a);
    }
  }
}
