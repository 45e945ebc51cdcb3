/** Printing of unsigned 64-bit integers on the serial port (include/lib/serial_port.h). */
module SerialNumber {
  import opened Machine

  const TEMP_SIZE := 20
  const ALPHABET := "0123456789abcdef"

  datatype IntRadix = Binary | Oct | Dec | Hex

  /** Value of a digit character, -1 for any other character. */
  function Digit(c: char): int
  {
    if '0' <= c <= '9' then c as int - '0' as int
    else if 'a' <= c <= 'f' then c as int - 'a' as int + 10
    else -1
  }

  lemma {:induction false} AlphabetDigit(d: nat)
    requires d < 16
    ensures Digit(ALPHABET[d]) == d
  {
  }

  /** Reading digits left to right. */
  function Parse(s: seq<char>, radix: nat): int
  {
    if s == [] then 0 else Parse(s[..|s| - 1], radix) * radix + Digit(s[|s| - 1])
  }

  function Power(b: nat, n: nat): nat
  {
    if n == 0 then 1 else b * Power(b, n - 1)
  }

  /** Value of digits stored lowest first. */
  function LowFirst(s: seq<char>, radix: nat): int
  {
    if s == [] then 0 else Digit(s[0]) + radix * LowFirst(s[1..], radix)
  }

  function Reversed(s: seq<char>): seq<char>
  {
    if s == [] then [] else Reversed(s[1..]) + [s[0]]
  }

  lemma {:induction false} ParseReversed(s: seq<char>, radix: nat)
    ensures Parse(Reversed(s), radix) == LowFirst(s, radix)
    ensures |Reversed(s)| == |s|
  {
    if s != [] {
      ParseReversed(s[1..], radix);
      var r := Reversed(s);
      assert r[..|r| - 1] == Reversed(s[1..]) && r[|r| - 1] == s[0];
    }
  }

  lemma {:induction false} Scale(r: int, a: int, d: int, p: int)
    ensures r * (a + d * p) == r * a + d * (r * p)
  {
    assert r * (d * p) == d * (r * p);
  }

  lemma {:induction false} LowFirstAppend(s: seq<char>, c: char, radix: nat)
    ensures LowFirst(s + [c], radix) == LowFirst(s, radix) + Digit(c) * Power(radix, |s|)
  {
    if s == [] {
      assert LowFirst([c], radix) == Digit(c) + radix * LowFirst([c][1..], radix);
      assert Power(radix, 0) == 1;
    } else {
      assert (s + [c])[0] == s[0] && (s + [c])[1..] == s[1..] + [c];
      LowFirstAppend(s[1..], c, radix);
      assert Power(radix, |s|) == radix * Power(radix, |s| - 1);
      Scale(radix, LowFirst(s[1..], radix), Digit(c), Power(radix, |s| - 1));
    }
  }

  lemma {:induction false} AtLeast(a: int, p: int)
    requires a >= 1 && p >= 0
    ensures a * p >= p
  {
  }

  lemma {:induction false} PowerMonotonic(b: nat, m: nat, n: nat)
    requires b >= 1 && m <= n
    ensures 1 <= Power(b, m) <= Power(b, n)
    decreases n
  {
    if n > 0 {
      if m == n {
        PowerMonotonic(b, m - 1, n - 1);
      } else {
        PowerMonotonic(b, m, n - 1);
      }
    }
  }

  lemma {:induction false} TwentyDigitsSuffice(radix: nat)
    requires radix == 10 || radix == 16
    ensures Power(radix, TEMP_SIZE) >= U64
  {
    assert Power(10, 4) == 10000;
    assert Power(10, 8) == 10000 * Power(10, 4);
    assert Power(10, 12) == 10000 * Power(10, 8);
    assert Power(10, 16) == 10000 * Power(10, 12);
    assert Power(10, 20) == 10000 * Power(10, 16);
    assert Power(16, 4) == 65536;
    assert Power(16, 8) == 65536 * Power(16, 4);
    assert Power(16, 12) == 65536 * Power(16, 8);
    assert Power(16, 16) == 65536 * Power(16, 12);
    PowerMonotonic(16, 16, 20);
  }

  /** One digit less remains, and the digits so far account for the rest of n. */
  lemma {:induction false} DigitStep(n: nat, remain: nat, low: int, p: nat, radix: nat)
    requires n == low + remain * p && radix >= 2
    ensures n == (low + (remain % radix) * p) + (remain / radix) * (radix * p)
  {
    var q, d := remain / radix, remain % radix;
    assert remain == q * radix + d;
    assert (q * radix + d) * p == q * (radix * p) + d * p;
  }

  lemma {:induction false} RoomLeft(n: nat, remain: nat, low: int, i: nat, radix: nat)
    requires radix == 10 || radix == 16
    requires n < U64 && remain > 0 && low >= 0 && n == low + remain * Power(radix, i)
    ensures i < TEMP_SIZE
  {
    hide Power;
    TwentyDigitsSuffice(radix);
    AtLeast(remain, Power(radix, i));
    if i >= TEMP_SIZE {
      PowerMonotonic(radix, TEMP_SIZE, i);
    }
  }

  // ----- Signed numbers -----

  /** Division and remainder of a signed type: toward zero. */
  function TruncDiv(a: int, b: nat): int
    requires b > 0
  {
    if a >= 0 then a / b else -((-a) / b)
  }

  function TruncMod(a: int, b: nat): int
    requires b > 0
  {
    if a >= 0 then a % b else -((-a) % b)
  }

  /** Every index the first loop uses on n lies in the alphabet. */
  ghost predicate IndicesInAlphabet(n: int, radix: nat)
    requires radix == 10 || radix == 16
    decreases if n >= 0 then n else -n
  {
    n == 0 || (0 <= TruncMod(n, radix) < 16 && IndicesInAlphabet(TruncDiv(n, radix), radix))
  }

  /** A signed number is printed without leaving the alphabet exactly when it is not negative. */
  lemma {:induction false} SignedPrintsIff(n: int, radix: nat)
    requires radix == 10 || radix == 16
    ensures IndicesInAlphabet(n, radix) <==> n >= 0
    decreases if n >= 0 then n else -n
  {
    if n != 0 {
      SignedPrintsIff(TruncDiv(n, radix), radix);
    }
  }

  // ----- The loops -----

  lemma {:induction false} PowerZero(radix: nat)
    ensures Power(radix, 0) == 1
  {
  }

  lemma {:induction false} LastDigit(remain: nat, radix: nat)
    requires remain > 0 && (radix == 10 || radix == 16)
    ensures remain / radix < remain && (remain / radix == 0 ==> remain % radix > 0)
  {
  }

  lemma {:induction false} Nonnegative(a: nat, b: nat)
    ensures a * b >= 0
  {
  }

  /** Storing the next digit keeps the account of n. */
  lemma {:induction false} NextDigit(n: nat, remain: nat, before: seq<char>, c: char, radix: nat)
    requires (radix == 10 || radix == 16) && remain > 0 && c == ALPHABET[remain % radix]
    requires LowFirst(before, radix) >= 0 && n == LowFirst(before, radix) + remain * Power(radix, |before|)
    ensures 0 <= Digit(c) < radix && LowFirst(before + [c], radix) >= 0
    ensures n == LowFirst(before + [c], radix) + (remain / radix) * Power(radix, |before| + 1)
    ensures remain / radix == 0 ==> c != '0'
    ensures remain / radix < remain
  {
    var d, p := remain % radix, Power(radix, |before|);
    AlphabetDigit(d);
    LastDigit(remain, radix);
    assert d > 0 ==> c != '0';
    assert Power(radix, |before| + 1) == radix * p;
    hide Digit, Power, LowFirst;
    LowFirstAppend(before, c, radix);
    DigitStep(n, remain, LowFirst(before, radix), p, radix);
    Nonnegative(d, p);
  }

  /** The first loop: digits into the buffer, lowest first. */
  method FillDigits(n: nat, radix: nat, temp: array<char>) returns (i: nat)
    requires 0 < n < U64 && (radix == 10 || radix == 16) && temp.Length == TEMP_SIZE
    modifies temp
    ensures 0 < i <= TEMP_SIZE && temp[i - 1] != '0'
    ensures forall k :: 0 <= k < i ==> 0 <= Digit(temp[k]) < radix
    ensures LowFirst(temp[..i], radix) == n
  {
    hide Digit, Power;
    var remain: nat := n;
    i := 0;
    assert Power(radix, 0) == 1 by { PowerZero(radix); }
    assert LowFirst(temp[..0], radix) == 0;
    while remain > 0
      invariant 0 <= i <= TEMP_SIZE
      invariant forall k :: 0 <= k < i ==> 0 <= Digit(temp[k]) < radix
      invariant LowFirst(temp[..i], radix) >= 0
      invariant n == LowFirst(temp[..i], radix) + remain * Power(radix, i)
      invariant remain == 0 ==> i > 0 && temp[i - 1] != '0'
      decreases remain
    {
      RoomLeft(n, remain, LowFirst(temp[..i], radix), i, radix);
      ghost var before := temp[..i];
      var newRemain := remain / radix;
      temp[i] := ALPHABET[remain % radix];
      assert temp[..i + 1] == before + [temp[i]];
      NextDigit(n, remain, before, temp[i], radix);
      i := i + 1;
      remain := newRemain;
    }
    assert remain * Power(radix, i) == 0;
  }

  lemma {:induction false} ReversedLast(s: seq<char>)
    requires s != []
    ensures Reversed(s) == [s[|s| - 1]] + Reversed(s[..|s| - 1])
  {
    if |s| > 1 {
      ReversedLast(s[1..]);
      assert s[1..][..|s| - 2] == s[..|s| - 1][1..];
    }
  }

  /** The second loop: the buffer's digits, highest first. */
  method Emit(temp: array<char>, count: nat) returns (out: seq<char>)
    requires count <= temp.Length
    ensures out == Reversed(temp[..count])
    ensures |out| == count && forall k :: 0 <= k < count ==> out[k] == temp[count - 1 - k]
  {
    out := [];
    var i := count;
    while i > 0
      invariant 0 <= i <= count
      invariant out + Reversed(temp[..i]) == Reversed(temp[..count])
      invariant |out| == count - i && forall k :: 0 <= k < |out| ==> out[k] == temp[count - 1 - k]
    {
      ReversedLast(temp[..i]);
      assert temp[..i][..i - 1] == temp[..i - 1];
      i := i - 1;
      out := out + [temp[i]];
    }
  }

  /**
   The characters sent for n: they read back as n, in base 16 for Hex and in base 10 for every
   other setting, without leading zeros, in at most 20 places.
   */
  method Print(n: nat, setting: IntRadix) returns (out: seq<char>)
    requires n < U64
    ensures Parse(out, if setting == Hex then 16 else 10) == n
    ensures n > 0 ==> |out| > 0 && out[0] != '0'
    ensures n == 0 ==> out == "0"
    ensures |out| <= TEMP_SIZE
    ensures forall k :: 0 <= k < |out| ==> 0 <= Digit(out[k]) < (if setting == Hex then 16 else 10)
  {
    var temp := new char[TEMP_SIZE](_ => '0');
    var radix := 10;
    if setting == Hex {
      radix := 16;
    }
    if n == 0 {
      out := "0";
      assert Parse("0", radix) == Parse([], radix) * radix + Digit('0');
      return;
    }
    var i := FillDigits(n, radix, temp);
    out := Emit(temp, i);
    ParseReversed(temp[..i], radix);
  }
}
