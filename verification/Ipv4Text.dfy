/**
 Dotted-decimal IPv4 text: inet_ntop and inet_pton, section 6.3 of RFC 3493. Four decimal numbers
 from 0 to 255, of one to three digits, joined by dots; a superfluous leading zero is refused, as the
 GNU C library does. The parser sees a C string, so it stops at the first NUL.
 */
module Ipv4Text {
  import opened Common

  function Digit(d: nat): (c: char)
    requires d < 10
    ensures c as int == 48 + d
  {
    '0' + d as char
  }

  /** %u of one byte */
  function PrintOctet(n: Byte): string
  {
    if n < 10 then [Digit(n)]
    else if n < 100 then [Digit(n / 10), Digit(n % 10)]
    else [Digit(n / 100), Digit(n / 10 % 10), Digit(n % 10)]
  }

  function Print(a: Addr): string
  {
    PrintOctet(a[0]) + "." + PrintOctet(a[1]) + "." + PrintOctet(a[2]) + "." + PrintOctet(a[3])
  }

  predicate AllDigits(s: string)
  {
    forall i :: 0 <= i < |s| ==> '0' <= s[i] <= '9'
  }

  function Value(s: string): nat
    requires AllDigits(s)
  {
    if s == [] then 0 else 10 * Value(s[..|s| - 1]) + (s[|s| - 1] as int - '0' as int)
  }

  function ParseOctet(s: string): Option<Byte>
  {
    if 1 <= |s| <= 3 && AllDigits(s) && (|s| > 1 ==> s[0] != '0') && Value(s) < 256 then Some(Value(s)) else None
  }

  /** The text up to the first NUL: what c_str() hands to a C function. */
  function CString(s: string): string
  {
    if s == [] || s[0] == '\0' then [] else [s[0]] + CString(s[1..])
  }

  /** The parts between dots. */
  function Fields(s: string): seq<string>
  {
    if s == [] then [[]] else
      var front := Fields(s[..|s| - 1]);
      if s[|s| - 1] == '.' then front + [[]]
      else if front == [] then [[s[|s| - 1]]]  // never: Fields is not empty
      else front[|front| - 1 := front[|front| - 1] + [s[|s| - 1]]]
  }

  function Parse(s: string): Option<Addr>
  {
    ParseFields(Fields(CString(s)))
  }

  function ParseFields(fields: seq<string>): Option<Addr>
  {
    if |fields| != 4 then None else
      match (ParseOctet(fields[0]), ParseOctet(fields[1]), ParseOctet(fields[2]), ParseOctet(fields[3]))
      case (Some(b0), Some(b1), Some(b2), Some(b3)) => Some([b0, b1, b2, b3])
      case _ => None
  }

  // ---- One octet -------------------------------------------------------------------------------

  lemma Value1(a: char)
    requires '0' <= a <= '9'
    ensures Value([a]) == a as int - '0' as int
  {
    assert [a][..0] == [];
  }

  lemma Value2(a: char, b: char)
    requires '0' <= a <= '9' && '0' <= b <= '9'
    ensures Value([a, b]) == 10 * (a as int - '0' as int) + (b as int - '0' as int)
  {
    assert [a, b][..1] == [a];
    Value1(a);
  }

  lemma Value3(a: char, b: char, c: char)
    requires '0' <= a <= '9' && '0' <= b <= '9' && '0' <= c <= '9'
    ensures Value([a, b, c]) == 100 * (a as int - '0' as int) + 10 * (b as int - '0' as int) + (c as int - '0' as int)
  {
    assert [a, b, c][..2] == [a, b];
    Value2(a, b);
  }

  /** A field parses to a byte exactly when it is that byte printed. */
  lemma OctetRoundTrip(s: string, n: Byte)
    ensures ParseOctet(s) == Some(n) <==> s == PrintOctet(n)
  {
    ParsePrinted(n);
    if ParseOctet(s) == Some(n) {
      if |s| == 1 {
        Value1(s[0]);
        assert s == [s[0]];
      } else if |s| == 2 {
        assert s == [s[0], s[1]];
        TwoDigits(s[0], s[1]);
      } else {
        assert s == [s[0], s[1], s[2]];
        ThreeDigits(s[0], s[1], s[2]);
      }
    }
  }

  lemma TwoDigits(a: char, b: char)
    requires '1' <= a <= '9' && '0' <= b <= '9' && Value([a, b]) < 256
    ensures PrintOctet(Value([a, b])) == [a, b]
  {
    Value2(a, b);
  }

  lemma ThreeDigits(a: char, b: char, c: char)
    requires '1' <= a <= '9' && '0' <= b <= '9' && '0' <= c <= '9'
    requires Value([a, b, c]) < 256
    ensures PrintOctet(Value([a, b, c])) == [a, b, c]
  {
    Value3(a, b, c);
    HundredsTensOnes(a as int - '0' as int, b as int - '0' as int, c as int - '0' as int);
  }

  lemma ParsePrinted(n: Byte)
    ensures ParseOctet(PrintOctet(n)) == Some(n)
  {
    if n < 10 {
      Value1(Digit(n));
    } else if n < 100 {
      Value2(Digit(n / 10), Digit(n % 10));
    } else {
      Value3(Digit(n / 100), Digit(n / 10 % 10), Digit(n % 10));
      DigitsOf(n);
    }
  }

  /** The decimal numeral of a byte: one to three digits without a superfluous zero. */
  predicate IsNumeral(s: string, n: Byte)
  {
    && 1 <= |s| <= 3 && (|s| > 1 ==> s[0] != '0') && (forall i :: 0 <= i < |s| ==> 48 <= s[i] as int <= 57)
    && n == if |s| == 1 then s[0] as int - 48
            else if |s| == 2 then 10 * (s[0] as int - 48) + (s[1] as int - 48)
            else 100 * (s[0] as int - 48) + 10 * (s[1] as int - 48) + (s[2] as int - 48)
  }

  lemma TensAndOnes(n: nat, tens: nat, ones: nat)
    requires n == 10 * tens + ones && ones < 10
    ensures n / 10 == tens && n % 10 == ones
  {
  }

  lemma Hundreds(n: nat, hundreds: nat, rest: nat)
    requires n == 100 * hundreds + rest && rest < 100
    ensures n / 100 == hundreds
  {
  }

  lemma HundredsTensOnes(a: nat, b: nat, c: nat)
    requires b < 10 && c < 10
    ensures var n := 100 * a + 10 * b + c; n / 100 == a && n / 10 % 10 == b && n % 10 == c
  {
    var n := 100 * a + 10 * b + c;
    TensAndOnes(n, 10 * a + b, c);
    TensAndOnes(10 * a + b, a, b);
    Hundreds(n, a, 10 * b + c);
  }

  lemma DigitsOf(n: nat)
    ensures n == 100 * (n / 100) + 10 * (n / 10 % 10) + n % 10
  {
    var tens, ones := n / 10, n % 10;
    Hundreds(n, tens / 10, 10 * (tens % 10) + ones);
  }

  lemma ShortNumeral(s: string, n: Byte)
    requires IsNumeral(s, n) && |s| < 3
    ensures s == PrintOctet(n)
  {
    assert s == if |s| == 1 then [s[0]] else [s[0], s[1]];
  }

  lemma LongNumeral(s: string, n: Byte)
    requires IsNumeral(s, n) && |s| == 3
    ensures s == PrintOctet(n)
  {
    HundredsTensOnes(s[0] as int - 48, s[1] as int - 48, s[2] as int - 48);
    assert s == [s[0], s[1], s[2]];
  }

  lemma OctetIsNumeral(n: Byte)
    ensures IsNumeral(PrintOctet(n), n)
  {
    DigitsOf(n);
  }

  lemma PrintsNumeral(s: string, n: Byte)
    ensures IsNumeral(s, n) <==> s == PrintOctet(n)
  {
    OctetIsNumeral(n);
    if IsNumeral(s, n) {
      if |s| == 3 {
        LongNumeral(s, n);
      } else {
        ShortNumeral(s, n);
      }
    }
  }

  // ---- Splitting at the dots -------------------------------------------------------------------

  predicate Plain(s: string)
  {
    forall i :: 0 <= i < |s| ==> s[i] != '.' && s[i] != '\0'
  }

  function Join(fields: seq<string>): string
  {
    if fields == [] then [] else if |fields| == 1 then fields[0]
    else Join(fields[..|fields| - 1]) + "." + fields[|fields| - 1]
  }

  lemma {:induction false} JoinFields(s: string)
    ensures Fields(s) != [] && Join(Fields(s)) == s
  {
    if s != [] {
      var before, c := s[..|s| - 1], s[|s| - 1];
      JoinFields(before);
      var front := Fields(before);
      var fields := Fields(s);
      assert fields[..|fields| - 1] == if c == '.' then front else front[..|front| - 1];
      assert s == before + [c];
    }
  }

  lemma {:induction false} FieldsOfPlain(s: string)
    requires Plain(s)
    ensures Fields(s) == [s]
  {
    if s != [] {
      FieldsOfPlain(s[..|s| - 1]);
      assert s == s[..|s| - 1] + [s[|s| - 1]];
    }
  }

  lemma {:induction false} FieldsAfterDot(s: string, last: string)
    requires Plain(last)
    ensures Fields(s + "." + last) == Fields(s) + [last]
  {
    var whole := s + "." + last;
    if last == [] {
      assert whole[..|whole| - 1] == s;
    } else {
      FieldsAfterDot(s, last[..|last| - 1]);
      assert whole[..|whole| - 1] == s + "." + last[..|last| - 1];
      assert last == last[..|last| - 1] + [last[|last| - 1]];
    }
  }

  lemma {:induction false} CStringOfNulFree(s: string)
    requires '\0' !in s
    ensures CString(s) == s
  {
    if s != [] {
      CStringOfNulFree(s[1..]);
    }
  }

  // ---- The address round trip ------------------------------------------------------------------

  lemma FieldsOfFour(p0: string, p1: string, p2: string, p3: string)
    requires Plain(p0) && Plain(p1) && Plain(p2) && Plain(p3)
    ensures Fields(p0 + "." + p1 + "." + p2 + "." + p3) == [p0, p1, p2, p3]
    ensures CString(p0 + "." + p1 + "." + p2 + "." + p3) == p0 + "." + p1 + "." + p2 + "." + p3
  {
    FieldsOfPlain(p0);
    FieldsAfterDot(p0, p1);
    FieldsAfterDot(p0 + "." + p1, p2);
    FieldsAfterDot(p0 + "." + p1 + "." + p2, p3);
    CStringOfNulFree(p0 + "." + p1 + "." + p2 + "." + p3);
  }

  lemma OctetIsPlain(n: Byte)
    ensures Plain(PrintOctet(n))
  {
  }

  lemma FieldsOfPrint(a: Addr)
    ensures Fields(Print(a)) == PrintFields(a)
    ensures CString(Print(a)) == Print(a)
  {
    OctetIsPlain(a[0]);
    OctetIsPlain(a[1]);
    OctetIsPlain(a[2]);
    OctetIsPlain(a[3]);
    FieldsOfFour(PrintOctet(a[0]), PrintOctet(a[1]), PrintOctet(a[2]), PrintOctet(a[3]));
  }

  lemma JoinFour(fields: seq<string>)
    requires |fields| == 4
    ensures Join(fields) == fields[0] + "." + fields[1] + "." + fields[2] + "." + fields[3]
  {
    assert fields[..3][..2] == fields[..2];
    assert fields[..2][..1] == fields[..1];
    assert Join(fields[..2]) == fields[0] + "." + fields[1];
    assert Join(fields[..3]) == Join(fields[..2]) + "." + fields[2];
  }

  function PrintFields(a: Addr): seq<string>
  {
    [PrintOctet(a[0]), PrintOctet(a[1]), PrintOctet(a[2]), PrintOctet(a[3])]
  }

  lemma FieldsRoundTrip(fields: seq<string>, a: Addr)
    ensures ParseFields(fields) == Some(a) <==> fields == PrintFields(a)
  {
    if |fields| == 4 {
      OctetRoundTrip(fields[0], a[0]);
      OctetRoundTrip(fields[1], a[1]);
      OctetRoundTrip(fields[2], a[2]);
      OctetRoundTrip(fields[3], a[3]);
      assert a == [a[0], a[1], a[2], a[3]];
    }
  }

  /** The parser accepts a text as `a` exactly when its C string is `a` printed. */
  lemma ParseExactlyPrinted(s: string, a: Addr)
    ensures Parse(s) == Some(a) <==> CString(s) == Print(a)
  {
    FieldsRoundTrip(Fields(CString(s)), a);
    FieldsOfPrint(a);
    JoinFields(CString(s));
    JoinFour(PrintFields(a));
  }

  /** The text of an address is the numerals of its bytes, the first byte first, with dots between; and what
      parses is exactly such a text, up to the first NUL. */
  ghost predicate IsDotted(s: string, a: Addr)
  {
    exists p0: string, p1: string, p2: string, p3: string ::
      && s == p0 + "." + p1 + "." + p2 + "." + p3
      && IsNumeral(p0, a[0]) && IsNumeral(p1, a[1]) && IsNumeral(p2, a[2]) && IsNumeral(p3, a[3])
  }

  lemma TextExactly(s: string, a: Addr)
    ensures s == Print(a) <==> IsDotted(s, a)
    ensures Parse(s) == Some(a) <==> IsDotted(CString(s), a)
  {
    ParseExactlyPrinted(s, a);
    PrintIsDotted(s, a);
    PrintIsDotted(CString(s), a);
  }

  lemma PrintIsDotted(s: string, a: Addr)
    ensures s == Print(a) <==> IsDotted(s, a)
  {
    PrintsNumeral(PrintOctet(a[0]), a[0]);
    PrintsNumeral(PrintOctet(a[1]), a[1]);
    PrintsNumeral(PrintOctet(a[2]), a[2]);
    PrintsNumeral(PrintOctet(a[3]), a[3]);
    if IsDotted(s, a) {
      var p0: string, p1: string, p2: string, p3: string :|
        && s == p0 + "." + p1 + "." + p2 + "." + p3
        && IsNumeral(p0, a[0]) && IsNumeral(p1, a[1]) && IsNumeral(p2, a[2]) && IsNumeral(p3, a[3]);
      PrintsNumeral(p0, a[0]);
      PrintsNumeral(p1, a[1]);
      PrintsNumeral(p2, a[2]);
      PrintsNumeral(p3, a[3]);
    }
  }

  /** The C string is everything before the first NUL. */
  lemma {:induction false} CStringExactly(s: string)
    ensures CString(s) <= s && '\0' !in CString(s)
    ensures |CString(s)| < |s| ==> s[|CString(s)|] == '\0'
  {
    if s != [] && s[0] != '\0' {
      CStringExactly(s[1..]);
    }
  }

  /** Every one of the 2^32 addresses survives printing and parsing. */
  lemma RoundTrip(a: Addr)
    ensures Parse(Print(a)) == Some(a)
  {
    FieldsOfPrint(a);
    ParseExactlyPrinted(Print(a), a);
  }

  lemma PrintInjective(a: Addr, b: Addr)
    requires Print(a) == Print(b)
    ensures a == b
  {
    RoundTrip(a);
    RoundTrip(b);
  }
}
