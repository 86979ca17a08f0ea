/**
  Text the server sends back: decimal numerals, hundredths, and JSON strings. Each printer is paired
  with a reader that gets the value back.
*/
module Text {
  import opened Bytes
  import opened Arith
  import opened Fixed2
  import opened Decimal

  // ----- numerals -----

  function DigitChar(d: nat): (c: char)
    requires d <= 9
    ensures IsDigit(c) && Digit(c) == d
  {
    '0' + d as char
  }

  function Numeral(n: nat): (s: string)
    ensures s != [] && AllDigits(s)
  {
    if n < 10 then [DigitChar(n)] else Numeral(n / 10) + [DigitChar(n % 10)]
  }

  lemma {:induction false} NumeralDenotes(n: nat)
    ensures NatOf(Numeral(n)) == n
    decreases n
  {
    if n >= 10 {
      NumeralDenotes(n / 10);
      var s := Numeral(n);
      assert s[..|s| - 1] == Numeral(n / 10);
    } else {
      assert Numeral(n)[..0] == [];
    }
  }

  lemma {:induction false} NumeralLength(n: nat, k: nat)
    requires k > 0 && n < Pow10(k)
    ensures |Numeral(n)| <= k
    decreases n
  {
    if n >= 10 {
      NumeralLength(n / 10, k - 1);
    }
  }

  /** `mc_builder_append_u32`: digits are produced backwards into a ten-character buffer. */
  method NumeralOf(value: u32) returns (text: string)
    ensures text == Numeral(value)
  {
    if value == 0 {
      return "0";
    }
    var digits := new char[10];
    var count := DigitsBackwards(value, digits);
    text := [];
    ghost var n := count;
    while count > 0
      invariant 0 <= count <= n == |Numeral(value)|
      invariant forall k :: 0 <= k < n ==> digits[k] == Numeral(value)[n - 1 - k]
      invariant text == Numeral(value)[..n - count]
    {
      hide Numeral;
      count := count - 1;
      assert digits[count] == Numeral(value)[n - 1 - count];
      TakeSnoc(Numeral(value), n - 1 - count);
      text := text + [digits[count]];
    }
  }

  /** The k-th character produced is the k-th digit from the right. */
  method DigitsBackwards(value: u32, digits: array<char>) returns (count: nat)
    requires value > 0 && digits.Length == 10
    modifies digits
    ensures count == |Numeral(value)| <= 10
    ensures forall k :: 0 <= k < count ==> digits[k] == Numeral(value)[count - 1 - k]
  {
    hide Numeral, Pow10;
    var left: nat := value;
    count := 0;
    TenDigits();
    ghost var n := |Numeral(value)|;
    assert Numeral(value)[..n] == Numeral(value);
    while left > 0
      invariant count <= 10 && left < Pow10(10 - count) && count <= n
      invariant left > 0 ==> Numeral(left) == Numeral(value)[..n - count]
      invariant left == 0 <==> count == n
      invariant forall k :: 0 <= k < count ==> digits[k] == Numeral(value)[n - 1 - k]
    {
      NumeralEnds(left, 10 - count, Numeral(value), n - count);
      digits[count] := DigitChar(left % 10);
      left := left / 10;
      count := count + 1;
    }
  }

  lemma NumeralEnds(left: nat, places: nat, all: string, end: nat)
    requires 0 < left < Pow10(places) && end <= |all| && Numeral(left) == all[..end]
    ensures places > 0 && left / 10 < Pow10(places - 1)
    ensures end > 0 && all[end - 1] == DigitChar(left % 10)
    ensures left / 10 == 0 <==> end == 1
    ensures left / 10 > 0 ==> Numeral(left / 10) == all[..end - 1]
  {
    var s := all[..end];
    assert s[end - 1] == all[end - 1];
    if left >= 10 {
      assert s[..end - 1] == all[..end - 1];
      assert |Numeral(left / 10)| == end - 1;
    }
  }

  lemma TenDigits()
    ensures Pow10(10) == 10_000_000_000 && Pow10(0) == 1
  {
    Pow10Nine();
  }

  /** `mc_builder_append_fixed2_scaled` */
  function FixedText(negative: bool, scaled: nat): string {
    var frac := scaled % 100;
    (if negative && scaled != 0 then "-" else "")
    + Numeral(scaled / 100) + "." + [DigitChar(frac / 10), DigitChar(frac % 10)]
  }

  /** Two digits are always printed, so the text denotes exactly scaled / 100. */
  lemma FixedTextDenotes(negative: bool, scaled: nat)
    ensures var whole, frac := Numeral(scaled / 100), scaled % 100;
            var digits := [DigitChar(frac / 10), DigitChar(frac % 10)];
            && ReadToken(FixedText(negative, scaled)) == Some(Typed(negative && scaled != 0, whole, digits))
            && Typed(negative && scaled != 0, whole, digits).Magnitude() == Ratio(scaled, 100)
  {
    hide Numeral, NatOf, Pow10;
    var whole, frac := Numeral(scaled / 100), scaled % 100;
    var digits := [DigitChar(frac / 10), DigitChar(frac % 10)];
    NumeralDenotes(scaled / 100);
    TwoDigits(frac / 10, frac % 10);
    var sign := if negative && scaled != 0 then "-" else "";
    ReadsBack(sign, whole, digits);
    assert FixedText(negative, scaled) == sign + whole + "." + digits;
  }

  lemma TwoDigits(a: nat, b: nat)
    requires a <= 9 && b <= 9
    ensures NatOf([DigitChar(a), DigitChar(b)]) == 10 * a + b && Pow10(2) == 100
  {
    var s := [DigitChar(a), DigitChar(b)];
    var t := [DigitChar(a)];
    assert s[..1] == t && t[..0] == [];
    assert NatOf(t) == a;
    assert Pow10(1) == 10;
  }

  lemma ReadsBack(sign: string, whole: string, digits: string)
    requires sign == "" || sign == "-"
    requires whole != [] && AllDigits(whole) && digits != [] && AllDigits(digits)
    ensures ReadToken(sign + whole + "." + digits) == Some(Typed(sign == "-", whole, digits))
  {
    hide ReadToken, AllDigits;
    var t := Typed(sign == "-", whole, digits);
    TokenReads(sign, t);
    assert sign + whole + "." + digits == Layout(sign, t);
  }

  // ----- JSON strings -----

  function HexDigit(v: nat): (c: char)
    requires v < 16
  {
    if v < 10 then '0' + v as char else 'A' + (v - 10) as char
  }

  function EscapeChar(c: char): (s: string)
    ensures 1 <= |s| <= 6
  {
    if c as int < 0x20 then "\\u00" + [HexDigit(c as int / 16), HexDigit(c as int % 16)]
    else if c == '"' || c == '\\' then ['\\', c]
    else [c]
  }

  function Escape(text: string): string {
    if text == [] then [] else EscapeChar(text[0]) + Escape(text[1..])
  }

  /** `build_chat_json` */
  function ChatJson(text: string): string {
    "{\"text\":\"" + Escape(text) + "\"}"
  }

  function HexValue(c: char): (v: Option<nat>)
    ensures v.Some? ==> v.value < 16
  {
    if '0' <= c <= '9' then Some((c - '0') as int)
    else if 'A' <= c <= 'F' then Some((c - 'A') as int + 10)
    else if 'a' <= c <= 'f' then Some((c - 'a') as int + 10)
    else None
  }

  datatype Quoted = Quoted(value: string, rest: string)

  /** One character of a string, escaped or not (section 7 of RFC 8259). */
  function ReadChar(s: string): (r: Option<(char, nat)>)
    ensures r.Some? ==> 1 <= r.value.1 <= |s|
  {
    if s == [] || (s[0] as int) < 0x20 || s[0] == '"' then None
    else if s[0] != '\\' then Some((s[0], 1))
    else if |s| < 2 then None
    else match s[1]
      case '"' => Some(('"', 2))
      case '\\' => Some(('\\', 2))
      case '/' => Some(('/', 2))
      case 'b' => Some((8 as char, 2))
      case 'f' => Some((12 as char, 2))
      case 'n' => Some(('\n', 2))
      case 'r' => Some(('\r', 2))
      case 't' => Some(('\t', 2))
      case 'u' =>
        if |s| < 6 then None
        else
          var a, b, c, d := HexValue(s[2]), HexValue(s[3]), HexValue(s[4]), HexValue(s[5]);
          if a.None? || b.None? || c.None? || d.None? || (a.value == 13 && b.value >= 8) then None
          else Some(((a.value * 4096 + b.value * 256 + c.value * 16 + d.value) as char, 6))
      case _ => None
  }

  /** A string up to its closing quote. */
  function ReadQuoted(s: string): Option<Quoted>
    decreases |s|
  {
    if s != [] && s[0] == '"' then Some(Quoted([], s[1..]))
    else match ReadChar(s)
      case None => None
      case Some((c, n)) =>
        match ReadQuoted(s[n..])
        case None => None
        case Some(q) => Some(Quoted([c] + q.value, q.rest))
  }

  lemma ReadsEscaped(c: char, rest: string)
    ensures ReadChar(EscapeChar(c) + rest) == Some((c, |EscapeChar(c)|))
    ensures EscapeChar(c)[0] != '"'
  {
    var e := EscapeChar(c);
    var s := e + rest;
    assert forall i :: 0 <= i < |e| ==> s[i] == e[i];
    if c as int < 0x20 {
      assert HexValue(HexDigit(c as int / 16)) == Some(c as int / 16);
      assert HexValue(HexDigit(c as int % 16)) == Some(c as int % 16);
    }
  }

  /** A JSON reader recovers any text, and nothing in the text can end the string early. */
  lemma {:induction false} EscapeReads(text: string, rest: string)
    ensures ReadQuoted(Escape(text) + "\"" + rest) == Some(Quoted(text, rest))
    decreases |text|
  {
    hide ReadChar, EscapeChar;
    var s := Escape(text) + "\"" + rest;
    if text == [] {
      assert s == "\"" + rest;
    } else {
      var e := EscapeChar(text[0]);
      var t := Escape(text[1..]) + "\"" + rest;
      ReadsEscaped(text[0], t);
      EscapeReads(text[1..], rest);
      FourParts(e, Escape(text[1..]), "\"", rest);
      assert text == [text[0]] + text[1..];
    }
  }

  lemma FourParts(a: string, b: string, c: string, d: string)
    requires a != []
    ensures var s := (a + b) + c + d;
            s == a + (b + c + d) && s[|a|..] == b + c + d && s[0] == a[0]
  {
    assert (a + b) + c + d == a + (b + c + d);
  }

  lemma {:induction false} EscapeLength(text: string)
    ensures |text| <= |Escape(text)| <= 6 * |text|
    decreases |text|
  {
    if text != [] {
      EscapeLength(text[1..]);
    }
  }

  lemma {:induction false} EscapeSnoc(text: string, c: char)
    ensures Escape(text + [c]) == Escape(text) + EscapeChar(c)
    decreases |text|
  {
    if text == [] {
      assert text + [c] == [c] && [c][1..] == [] && Escape([]) == [];
      assert EscapeChar(c) + [] == EscapeChar(c);
    } else {
      assert (text + [c])[1..] == text[1..] + [c];
      EscapeSnoc(text[1..], c);
    }
  }

  /** `json_append_char`, for each character of a short piece; one place is kept for the terminator. */
  method AppendPiece(dst: array<char>, pos: nat, piece: string) returns (ok: bool, next: nat)
    requires pos < dst.Length
    modifies dst
    ensures ok <==> pos + |piece| < dst.Length
    ensures ok ==> next == pos + |piece| && dst[..next] == old(dst[..pos]) + piece
    ensures next < dst.Length
  {
    next := pos;
    ghost var before := dst[..pos];
    var i := 0;
    while i < |piece|
      invariant 0 <= i <= |piece| && next == pos + i < dst.Length
      invariant dst[..next] == before + piece[..i]
    {
      if next + 1 >= dst.Length {
        return false, next;
      }
      dst[next] := piece[i];
      next := next + 1;
      i := i + 1;
    }
    return true, next;
  }

  /** `json_escape_text`: succeeds exactly when the escaped text and a terminator fit. */
  method EscapeText(text: string, dst: array<char>) returns (ok: bool, length: nat)
    modifies dst
    ensures ok <==> |Escape(text)| < dst.Length
    ensures ok ==> length == |Escape(text)| && dst[..length] == Escape(text)
  {
    length := 0;
    if dst.Length == 0 {
      return false, 0;
    }
    var i := 0;
    while i < |text|
      invariant 0 <= i <= |text| && length < dst.Length
      invariant length == |Escape(text[..i])| && dst[..length] == Escape(text[..i])
    {
      TakeSnoc(text, i);
      EscapeSnoc(text[..i], text[i]);
      EscapePrefix(text, i + 1);
      hide Escape, EscapeChar;
      ok, length := AppendPiece(dst, length, EscapeChar(text[i]));
      if !ok {
        return;
      }
      i := i + 1;
    }
    assert text[..i] == text;
    ok := true;
  }

  lemma EscapePrefix(text: string, i: nat)
    requires i <= |text|
    ensures |Escape(text[..i])| <= |Escape(text)|
    decreases |text| - i
  {
    if i < |text| {
      TakeSnoc(text, i);
      EscapeSnoc(text[..i], text[i]);
      EscapePrefix(text, i + 1);
    } else {
      assert text[..i] == text;
    }
  }
}
