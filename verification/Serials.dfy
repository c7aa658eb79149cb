/** Certificate serial numbers as text: how they are written, checked and compared. */
module Serials {

  predicate HexDigit(c: char) {
    '0' <= c <= '9' || 'a' <= c <= 'f' || 'A' <= c <= 'F'
  }

  /** The load check: an optional minus sign and an even number, at least two, of hexadecimal digits. */
  predicate SerialOk(s: string) {
    |Digits(s)| % 2 == 0 && |Digits(s)| >= 2 && forall i :: 0 <= i < |Digits(s)| ==> HexDigit(Digits(s)[i])
  }

  function Digits(s: string): string {
    if s != "" && s[0] == '-' then s[1..] else s
  }

  /** `index_serial_cmp` compares what is left after the leading zeros. */
  function Key(s: string): string {
    if s != "" && s[0] == '0' then Key(s[1..]) else s
  }

  /** The key is the text without its leading zeros, all of them and nothing else. */
  lemma {:induction false} KeyIs(s: string)
    ensures Key("0" + s) == Key(s)
    ensures |Key(s)| <= |s| && Key(s) == s[|s| - |Key(s)|..] && (Key(s) != "" ==> Key(s)[0] != '0')
    ensures forall i :: 0 <= i < |s| - |Key(s)| ==> s[i] == '0'
  {
    assert ("0" + s)[1..] == s;
    if s != "" && s[0] == '0' {
      KeyIs(s[1..]);
      assert s[1..][|s| - 1 - |Key(s)|..] == s[|s| - |Key(s)|..];
      forall i | 0 <= i < |s| - |Key(s)| ensures s[i] == '0' {
        assert i > 0 ==> s[1..][i - 1] == '0';
      }
    } else {
      assert Key(s) == s == s[0..];
    }
  }

  function Digit(d: nat): (c: char)
    requires d < 16
    ensures HexDigit(c)
  {
    if d < 10 then ('0' as int + d) as char else ('A' as int + d - 10) as char
  }

  /** Two digits a byte, without leading zero bytes. */
  function HexBytes(n: nat): string {
    var low := [Digit(n / 16 % 16), Digit(n % 16)];
    if n < 256 then low else HexBytes(n / 256) + low
  }

  /** The text of a serial number: `BN_bn2hex`, and "00" for zero. */
  function SerialText(n: int): string {
    if n < 0 then "-" + HexBytes(-n) else HexBytes(n)
  }

  function DigitValue(c: char): int {
    if '0' <= c <= '9' then c as int - '0' as int
    else if 'A' <= c <= 'F' then c as int - 'A' as int + 10
    else if 'a' <= c <= 'f' then c as int - 'a' as int + 10
    else 0
  }

  function HexValue(s: string): int {
    if s == "" then 0 else HexValue(s[..|s| - 1]) * 16 + DigitValue(s[|s| - 1])
  }

  lemma {:induction false} HexBytesShape(n: nat)
    ensures var s := HexBytes(n);
            |s| % 2 == 0 && |s| >= 2 && forall i :: 0 <= i < |s| ==> HexDigit(s[i]) && s[i] != '-'
  {
    if n >= 256 {
      HexBytesShape(n / 256);
    }
  }

  /** What the CA writes passes its own load check. */
  lemma SerialTextOk(n: int)
    ensures SerialOk(SerialText(n))
  {
    if n < 0 {
      HexBytesShape(-n);
      assert SerialText(n)[1..] == HexBytes(-n);
    } else {
      HexBytesShape(n);
    }
  }

  lemma {:induction false} HexBytesValue(n: nat)
    ensures HexValue(HexBytes(n)) == n
  {
    var high, low := (if n < 256 then "" else HexBytes(n / 256)), [Digit(n / 16 % 16), Digit(n % 16)];
    var s := high + low;
    assert s[..|s| - 1] == high + [low[0]];
    assert (high + [low[0]])[..|high|] == high;
    assert DigitValue(low[0]) == n / 16 % 16 && DigitValue(low[1]) == n % 16;
    if n >= 256 {
      HexBytesValue(n / 256);
      assert n / 256 == n / 16 / 16;
    }
    assert HexValue(high) == n / 256;
    assert HexBytes(n) == s;
    HexSplit(n);
  }

  /** The text of a number: a minus sign exactly for a negative one, and behind it digits with its absolute value. */
  lemma SerialTextMeans(n: int)
    ensures SerialText(n) != "" && (SerialText(n)[0] == '-' <==> n < 0)
    ensures HexValue(Digits(SerialText(n))) == if n < 0 then -n else n
  {
    hide HexBytes, HexValue;
    var a := if n < 0 then -n else n;
    HexBytesShape(a);
    HexBytesValue(a);
    assert Digits(SerialText(n)) == HexBytes(a);
  }

  lemma HexSplit(n: nat)
    ensures (n / 256 * 16 + n / 16 % 16) * 16 + n % 16 == n
  {
    assert n / 16 / 16 == n / 256;
  }

  /** Leading zeros do not change the value. */
  lemma {:induction false} KeyValue(s: string)
    ensures HexValue(Key(s)) == HexValue(s)
  {
    if s != "" && s[0] == '0' {
      KeyValue(s[1..]);
      DropZero(s);
    }
  }

  lemma {:induction false} DropZero(s: string)
    requires s != "" && s[0] == '0'
    ensures HexValue(s) == HexValue(s[1..])
  {
    if |s| == 1 {
      assert s[..0] == "" && s[1..] == "";
    } else {
      var n := |s| - 1;
      DropZero(s[..n]);
      assert s[..n][1..] == s[1..][..n - 1];
      assert s[1..][n - 1] == s[n];
    }
  }

  lemma {:induction false} KeyHasNoMinus(s: string)
    requires forall i :: 0 <= i < |s| ==> s[i] != '-'
    ensures forall i :: 0 <= i < |Key(s)| ==> Key(s)[i] != '-'
  {
    if s != "" && s[0] == '0' {
      KeyHasNoMinus(s[1..]);
    }
  }

  /** Different numbers are different keys of the index. */
  lemma KeysDistinct(a: int, b: int)
    ensures Key(SerialText(a)) == Key(SerialText(b)) <==> a == b
  {
    hide HexBytes, HexValue;
    if a >= 0 {
      HexBytesShape(a);
      KeyHasNoMinus(HexBytes(a));
      KeyValue(HexBytes(a));
      HexBytesValue(a);
    }
    if b >= 0 {
      HexBytesShape(b);
      KeyHasNoMinus(HexBytes(b));
      KeyValue(HexBytes(b));
      HexBytesValue(b);
    }
    if a < 0 && b < 0 {
      HexBytesValue(-a);
      HexBytesValue(-b);
      assert SerialText(a)[1..] == HexBytes(-a) && SerialText(b)[1..] == HexBytes(-b);
    } else if a < 0 || b < 0 {
      assert a < 0 ==> Key(SerialText(a))[0] == '-';
      assert b < 0 ==> Key(SerialText(b))[0] == '-';
    }
  }
}
