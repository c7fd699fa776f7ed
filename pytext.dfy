/** The Python string built-ins the bridge and the chat-relay client rely on:
    str.isspace, str.strip(), str.split(sep), int(text) and str(number).
    Both the persisted sequence counter and the chat-relay configuration are
    stored as text through these, so their round trips are proved here once. */
module PyText {
  import opened Wrappers

  /** str.isspace() of one character: the ASCII separators and the Unicode
      spaces Python treats as whitespace. */
  predicate IsSpace(c: char) {
    var n := c as int;
    (9 <= n <= 13) || (28 <= n <= 32) || n == 0x85 || n == 0xA0 || n == 0x1680
    || (0x2000 <= n <= 0x200A) || n == 0x2028 || n == 0x2029 || n == 0x202F
    || n == 0x205F || n == 0x3000
  }

  /** Number of leading whitespace characters. */
  function LeadingSpaces(s: string): (k: nat)
    ensures k <= |s|
    ensures forall i :: 0 <= i < k ==> IsSpace(s[i])
    ensures k == |s| || !IsSpace(s[k])
  {
    if s != [] && IsSpace(s[0]) then 1 + LeadingSpaces(s[1..]) else 0
  }

  /** Number of trailing whitespace characters. */
  function TrailingSpaces(s: string): (k: nat)
    ensures k <= |s|
    ensures forall i :: |s| - k <= i < |s| ==> IsSpace(s[i])
    ensures k == |s| || !IsSpace(s[|s| - 1 - k])
  {
    if s != [] && IsSpace(s[|s| - 1]) then 1 + TrailingSpaces(s[..|s| - 1]) else 0
  }

  /** str.rstrip() with no argument. */
  function StripEnd(t: string): string {
    t[..|t| - TrailingSpaces(t)]
  }

  /** str.strip() with no argument. */
  function Strip(s: string): (r: string)
  {
    StripEnd(s[LeadingSpaces(s)..])
  }

  /** The result of Strip is a slice of the input with only whitespace cut
      off, and it neither starts nor ends with whitespace. */
  lemma StripIsTrimmedSlice(s: string)
    ensures var r := Strip(s);
      && (r == [] || (!IsSpace(r[0]) && !IsSpace(r[|r| - 1])))
      && exists i :: 0 <= i <= |s| && r <= s[i..]
           && (forall j :: 0 <= j < i ==> IsSpace(s[j]))
           && (forall j :: i + |r| <= j < |s| ==> IsSpace(s[j]))
  {
    var i := LeadingSpaces(s);
    var t := s[i..];
    var r := Strip(s);
    assert r <= s[i..];
    forall j | i + |r| <= j < |s| ensures IsSpace(s[j]) {
      assert s[j] == t[j - i];
    }
  }

  /** A text that neither starts nor ends with whitespace is left alone. */
  lemma StripUnchanged(s: string)
    requires s == [] || (!IsSpace(s[0]) && !IsSpace(s[|s| - 1]))
    ensures Strip(s) == s
  {
    if s != [] {
      assert LeadingSpaces(s) == 0;
      assert TrailingSpaces(s) == 0;
    }
  }

  lemma {:induction false} LeadingSpacesAppend(s: string, c: char)
    ensures LeadingSpaces(s) < |s| ==> LeadingSpaces(s + [c]) == LeadingSpaces(s)
    ensures LeadingSpaces(s) == |s| && IsSpace(c) ==> LeadingSpaces(s + [c]) == |s| + 1
  {
    if s == [] {
      assert [] + [c] == [c] && [c][1..] == [];
    } else {
      LeadingSpacesAppend(s[1..], c);
      assert (s + [c])[0] == s[0];
      assert (s + [c])[1..] == s[1..] + [c];
    }
  }

  lemma StripEndAppend(t: string, c: char)
    requires IsSpace(c)
    ensures StripEnd(t + [c]) == StripEnd(t)
  {
    assert (t + [c])[..|t|] == t;
    assert TrailingSpaces(t + [c]) == 1 + TrailingSpaces(t);
  }

  /** A trailing whitespace character, such as the line terminator, makes
      no difference to strip(). */
  lemma StripIgnoresTrailingSpace(s: string, c: char)
    requires IsSpace(c)
    ensures Strip(s + [c]) == Strip(s)
  {
    var i := LeadingSpaces(s);
    LeadingSpacesAppend(s, c);
    if i < |s| {
      assert (s + [c])[i..] == s[i..] + [c];
      StripEndAppend(s[i..], c);
    }
  }

  /** str.split(sep) with an explicit separator: n separators give n + 1
      pieces, empty pieces included. */
  function Split(s: string, sep: char): (parts: seq<string>)
    ensures |parts| >= 1
    ensures forall i :: 0 <= i < |parts| ==> sep !in parts[i]
  {
    if s == [] then [[]]
    else
      var rest := Split(s[1..], sep);
      if s[0] == sep then [[]] + rest else [[s[0]] + rest[0]] + rest[1..]
  }

  /** sep.join(parts), the inverse of Split. */
  function Join(parts: seq<string>, sep: char): string
    requires |parts| >= 1
  {
    if |parts| == 1 then parts[0] else parts[0] + [sep] + Join(parts[1..], sep)
  }

  /** A character in none of the pieces, other than the separator, is not
      in their join. */
  lemma {:induction false} NotInJoin(parts: seq<string>, sep: char, c: char)
    requires |parts| >= 1 && c != sep
    requires forall i :: 0 <= i < |parts| ==> c !in parts[i]
    ensures c !in Join(parts, sep)
  {
    if |parts| > 1 {
      NotInJoin(parts[1..], sep, c);
    }
  }

  /** Splitting loses nothing: joining the pieces gives the text back. */
  lemma {:induction false} JoinOfSplit(s: string, sep: char)
    ensures Join(Split(s, sep), sep) == s
  {
    if s != [] {
      var rest := Split(s[1..], sep);
      JoinOfSplit(s[1..], sep);
      if s[0] == sep {
        assert Split(s, sep)[1..] == rest;
      } else {
        var parts := Split(s, sep);
        assert parts[1..] == rest[1..];
        if |rest| > 1 {
          assert Join(parts, sep) == [s[0]] + rest[0] + [sep] + Join(rest[1..], sep);
        }
      }
    }
  }

  /** A piece without the separator followed by the separator splits off as
      exactly one piece. */
  lemma {:induction false} SplitAfterPiece(a: string, sep: char, rest: string)
    requires sep !in a
    ensures Split(a + [sep] + rest, sep) == [a] + Split(rest, sep)
  {
    if a == [] {
      assert [] + [sep] + rest == [sep] + rest;
      assert ([sep] + rest)[1..] == rest;
    } else {
      SplitAfterPiece(a[1..], sep, rest);
      assert (a + [sep] + rest)[1..] == a[1..] + [sep] + rest;
      assert [a[0]] + a[1..] == a;
    }
  }

  /** Split of a text without the separator is that text alone. */
  lemma {:induction false} SplitWithoutSep(s: string, sep: char)
    requires sep !in s
    ensures Split(s, sep) == [s]
  {
    if s != [] {
      SplitWithoutSep(s[1..], sep);
      assert [s[0]] + s[1..] == s;
    }
  }

  /** Joining pieces that do not contain the separator, then splitting,
      gives the same pieces back. */
  lemma {:induction false} SplitOfJoin(parts: seq<string>, sep: char)
    requires |parts| >= 1
    requires forall i :: 0 <= i < |parts| ==> sep !in parts[i]
    ensures Split(Join(parts, sep), sep) == parts
  {
    if |parts| == 1 {
      SplitWithoutSep(parts[0], sep);
    } else {
      SplitOfJoin(parts[1..], sep);
      SplitAfterPiece(parts[0], sep, Join(parts[1..], sep));
      assert [parts[0]] + parts[1..] == parts;
    }
  }

  /** Split gives more than one piece exactly when the separator occurs. */
  lemma {:induction false} SplitPieceCount(s: string, sep: char)
    ensures |Split(s, sep)| > 1 <==> sep in s
  {
    if s != [] {
      SplitPieceCount(s[1..], sep);
      assert sep in s <==> s[0] == sep || sep in s[1..];
    }
  }

  predicate IsDigit(c: char) {
    '0' <= c <= '9'
  }

  /** The digit part int() accepts: ASCII digits, with single underscores
      allowed between two digits. */
  predicate IsDigitGroup(s: string) {
    && |s| > 0 && IsDigit(s[0]) && IsDigit(s[|s| - 1])
    && forall i :: 0 <= i < |s| ==>
         IsDigit(s[i]) || (s[i] == '_' && 0 < i < |s| - 1 && IsDigit(s[i + 1]))
  }

  /** Decimal value of the digits of s, underscores skipped. */
  function DigitsValue(s: string): nat {
    if s == [] then 0
    else
      var last := s[|s| - 1];
      if IsDigit(last) then 10 * DigitsValue(s[..|s| - 1]) + (last as int - '0' as int)
      else DigitsValue(s[..|s| - 1])
  }

  /** The whitespace int() skips around a number. ASCII text keeps only
      \t, \n, \v, \f, \r and the space, so the separators U+001C..U+001F,
      which str.isspace() accepts, are not skipped. Non-ASCII whitespace is
      turned into a space first and so is skipped. */
  predicate IsIntSpace(c: char) {
    IsSpace(c) && !(28 <= c as int <= 31)
  }

  /** Number of leading characters int() skips. */
  function IntLeading(s: string): (k: nat)
    ensures k <= |s|
    ensures forall i :: 0 <= i < k ==> IsIntSpace(s[i])
    ensures k == |s| || !IsIntSpace(s[k])
  {
    if s != [] && IsIntSpace(s[0]) then 1 + IntLeading(s[1..]) else 0
  }

  /** Number of trailing characters int() skips. */
  function IntTrailing(s: string): (k: nat)
    ensures k <= |s|
    ensures forall i :: |s| - k <= i < |s| ==> IsIntSpace(s[i])
    ensures k == |s| || !IsIntSpace(s[|s| - 1 - k])
  {
    if s != [] && IsIntSpace(s[|s| - 1]) then 1 + IntTrailing(s[..|s| - 1]) else 0
  }

  /** t with the trailing whitespace int() skips cut off: a prefix of t
      that does not end with such whitespace, followed in t only by it. */
  function IntTrimEnd(t: string): (r: string)
    ensures r <= t
    ensures r == [] || !IsIntSpace(r[|r| - 1])
    ensures forall k :: |r| <= k < |t| ==> IsIntSpace(t[k])
  {
    t[..|t| - IntTrailing(t)]
  }

  /** The text int() reads: s with the whitespace IsIntSpace accepts cut
      from both ends. It starts where the skipped leading whitespace ends,
      and neither starts nor ends with such whitespace. */
  function IntTrim(s: string): (r: string)
    ensures r == [] || (!IsIntSpace(r[0]) && !IsIntSpace(r[|r| - 1]))
    ensures r <= s[IntLeading(s)..]
  {
    IntTrimEnd(s[IntLeading(s)..])
  }

  /** A text that neither starts nor ends with whitespace int() skips is
      read as it is. */
  lemma IntTrimUnchanged(s: string)
    requires s == [] || (!IsIntSpace(s[0]) && !IsIntSpace(s[|s| - 1]))
    ensures IntTrim(s) == s
  {
    if s != [] {
      assert IntLeading(s) == 0;
      assert s[0..] == s;
      assert IntTrailing(s) == 0;
    }
  }

  /** int(text) for base 10: surrounding whitespace (IsIntSpace, not the
      wider IsSpace of strip()), an optional sign, then a
      digit group; anything else is a ValueError, here None. */
  function ParseInt(s: string): Option<int> {
    var t := IntTrim(s);
    if t != [] && (t[0] == '-' || t[0] == '+') then
      if IsDigitGroup(t[1..]) then
        var v: int := DigitsValue(t[1..]);
        Some(if t[0] == '-' then -v else v)
      else None
    else if IsDigitGroup(t) then Some(DigitsValue(t))
    else None
  }

  function DigitChar(d: nat): char
    requires d < 10
  {
    ('0' as int + d) as char
  }

  /** str(n) for n >= 0: its decimal digits, without leading zeros. */
  function NatToString(n: nat): (r: string)
    ensures |r| > 0 && forall i :: 0 <= i < |r| ==> IsDigit(r[i])
  {
    if n < 10 then [DigitChar(n)] else NatToString(n / 10) + [DigitChar(n % 10)]
  }

  /** str(n) for any integer. */
  function IntToString(n: int): string {
    if n < 0 then "-" + NatToString(-n) else NatToString(n)
  }

  lemma {:induction false} DigitsValueOfNatToString(n: nat)
    ensures DigitsValue(NatToString(n)) == n
  {
    var r := NatToString(n);
    if n >= 10 {
      DigitsValueOfNatToString(n / 10);
      assert r[..|r| - 1] == NatToString(n / 10);
    }
  }

  /** str(n) has no whitespace for int() to skip. */
  lemma IntToStringTrimmed(n: int)
    ensures IntTrim(IntToString(n)) == IntToString(n)
  {
    var s := IntToString(n);
    var d := NatToString(if n < 0 then -n else n);
    assert s[|s| - 1] == d[|d| - 1];
    assert s[0] == '-' || s[0] == d[0];
    IntTrimUnchanged(s);
  }

  /** int(str(n)) == n: what is written as a number is read back as it. */
  lemma ParseIntOfIntToString(n: int)
    ensures ParseInt(IntToString(n)) == Some(n)
  {
    var s := IntToString(n);
    var d := NatToString(if n < 0 then -n else n);
    DigitsValueOfNatToString(if n < 0 then -n else n);
    assert IsDigitGroup(d);
    IntToStringTrimmed(n);
    if n < 0 {
      assert s[1..] == d;
    } else {
      assert s[0] != '-' && s[0] != '+';
    }
  }

  /** The file separator U+001C is whitespace to strip(). */
  lemma StripSkipsFileSeparator()
    ensures Strip([28 as char, '0']) == "0"
  {
    var s := [28 as char, '0'];
    assert LeadingSpaces(s[1..]) == 0;
    assert LeadingSpaces(s) == 1;
    assert s[1..] == "0";
    assert TrailingSpaces("0") == 0;
  }

  /** int() does not skip U+001C: "\x1c0" is a ValueError, while " 0"
      reads as 0, so int() skips fewer characters than strip(). */
  lemma IntRejectsFileSeparator()
    ensures ParseInt([28 as char, '0']) == None
    ensures ParseInt([' ', '0']) == Some(0)
  {
    var s := [28 as char, '0'];
    assert IntLeading(s) == 0;
    assert IntTrailing(s) == 0;
    assert IntTrim(s) == s;
    assert !IsDigitGroup(s);
    var u := [' ', '0'];
    assert IntLeading(u[1..]) == 0;
    assert IntLeading(u) == 1;
    assert u[1..] == "0";
    assert IntTrailing("0") == 0;
    assert IntTrim(u) == "0";
    assert IsDigitGroup("0");
  }
}
