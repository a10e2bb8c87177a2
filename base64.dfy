/** The base64 transport encoding files are stored in (section 4 of
    RFC 4648), written out so that its round trip is proved rather than
    assumed. The decoder is lenient like Node's: characters outside the
    alphabet, padding included, are skipped, and the URL-safe "-" and "_"
    are read as "+" and "/". */
module Base64 {

  type byte = x: int | 0 <= x < 256
  type sextet = x: int | 0 <= x < 64

  /** The character of a 6-bit value in the standard alphabet. */
  function ValueChar(v: sextet): (c: char)
    ensures IsAlphabet(c) && c != '-' && c != '_' && c != '='
  {
    if v < 26 then ('A' as int + v) as char
    else if v < 52 then ('a' as int + v - 26) as char
    else if v < 62 then ('0' as int + v - 52) as char
    else if v == 62 then '+'
    else '/'
  }

  predicate IsAlphabet(c: char) {
    'A' <= c <= 'Z' || 'a' <= c <= 'z' || '0' <= c <= '9' || c == '+' || c == '/' || c == '-' || c == '_'
  }

  /** The 6-bit value of an alphabet character. */
  function CharValue(c: char): (v: sextet)
    requires IsAlphabet(c)
  {
    if 'A' <= c <= 'Z' then c as int - 'A' as int
    else if 'a' <= c <= 'z' then c as int - 'a' as int + 26
    else if '0' <= c <= '9' then c as int - '0' as int + 52
    else if c == '+' || c == '-' then 62
    else 63
  }

  lemma CharValueOfValueChar(v: sextet)
    ensures CharValue(ValueChar(v)) == v
  {
  }

  /** The 6-bit values of the encoding: four per three bytes, and two or
      three for a final group of one or two bytes. */
  function Sextets(b: seq<byte>): seq<sextet>
  {
    if |b| == 0 then []
    else if |b| == 1 then [b[0] / 4, (b[0] % 4) * 16]
    else if |b| == 2 then [b[0] / 4, (b[0] % 4) * 16 + b[1] / 16, (b[1] % 16) * 4]
    else [b[0] / 4, (b[0] % 4) * 16 + b[1] / 16, (b[1] % 16) * 4 + b[2] / 64, b[2] % 64] + Sextets(b[3..])
  }

  function Chars(v: seq<sextet>): (s: string)
    ensures |s| == |v|
    ensures forall i :: 0 <= i < |v| ==> s[i] == ValueChar(v[i])
  {
    if v == [] then "" else [ValueChar(v[0])] + Chars(v[1..])
  }

  function Padding(n: nat): string {
    if n % 3 == 1 then "==" else if n % 3 == 2 then "=" else ""
  }

  /** `buffer.toString("base64")`. */
  function Encode(b: seq<byte>): (s: string)
  {
    Chars(Sextets(b)) + Padding(|b|)
  }

  /** The alphabet characters of `s`, as 6-bit values, in order. */
  function Clean(s: string): seq<sextet>
  {
    if s == [] then []
    else if IsAlphabet(s[0]) then [CharValue(s[0])] + Clean(s[1..])
    else Clean(s[1..])
  }

  /** Three bytes per four values; a final two or three values give one or
      two bytes, a single left-over value none. */
  function DecodeValues(v: seq<sextet>): seq<byte>
  {
    if |v| < 2 then []
    else
      var x0: byte := v[0] as int * 4 + v[1] as int / 16;
      if |v| == 2 then [x0]
      else
        var x1: byte := (v[1] as int % 16) * 16 + v[2] as int / 4;
        if |v| == 3 then [x0, x1]
        else
          var x2: byte := (v[2] as int % 4) * 64 + v[3] as int;
          [x0, x1, x2] + DecodeValues(v[4..])
  }

  /** `Buffer.from(s, "base64")`. */
  function Decode(s: string): seq<byte>
  {
    DecodeValues(Clean(s))
  }

  // ---------------------------------------------------------------------

  lemma {:induction false} CleanAppend(s: string, t: string)
    ensures Clean(s + t) == Clean(s) + Clean(t)
  {
    if s == [] {
      assert s + t == t;
    } else {
      assert (s + t)[0] == s[0] && (s + t)[1..] == s[1..] + t;
      CleanAppend(s[1..], t);
    }
  }

  lemma {:induction false} CleanChars(v: seq<sextet>)
    ensures Clean(Chars(v)) == v
  {
    if v != [] {
      var s := Chars(v);
      assert s[1..] == Chars(v[1..]);
      CharValueOfValueChar(v[0]);
      CleanChars(v[1..]);
    }
  }

  lemma GroupRoundTrip(b0: byte, b1: byte, b2: byte)
    ensures b0 / 4 * 4 + ((b0 % 4) * 16 + b1 / 16) / 16 == b0
    ensures ((b0 % 4) * 16 + b1 / 16) % 16 * 16 + ((b1 % 16) * 4 + b2 / 64) / 4 == b1
    ensures ((b1 % 16) * 4 + b2 / 64) % 4 * 64 + b2 % 64 == b2
  {
  }

  lemma {:induction false} DecodeSextets(b: seq<byte>)
    ensures DecodeValues(Sextets(b)) == b
  {
    if |b| > 0 {
      var b2 := if |b| > 2 then b[2] else 0;
      var b1 := if |b| > 1 then b[1] else 0;
      GroupRoundTrip(b[0], b1, b2);
      if |b| > 3 {
        DecodeSextets(b[3..]);
        var v := Sextets(b);
        assert v[4..] == Sextets(b[3..]);
        assert b == b[..3] + b[3..];
      } else if |b| == 3 {
        assert Sextets(b[3..]) == [];
        assert b == [b[0], b[1], b[2]];
      }
    }
  }

  /** Decoding an encoding gives back the bytes. */
  lemma DecodeEncode(b: seq<byte>)
    ensures Decode(Encode(b)) == b
  {
    CleanAppend(Chars(Sextets(b)), Padding(|b|));
    CleanChars(Sextets(b));
    assert Clean(Padding(|b|)) == [] by {
      if |b| % 3 == 1 {
        assert "=="[1..] == "=";
        assert "="[1..] == "";
      } else if |b| % 3 == 2 {
        assert "="[1..] == "";
      }
    }
    assert Sextets(b) + [] == Sextets(b);
    DecodeSextets(b);
  }

  lemma {:induction false} SextetsLength(b: seq<byte>)
    ensures |Sextets(b)| == if |b| % 3 == 0 then |b| / 3 * 4 else |b| / 3 * 4 + |b| % 3 + 1
  {
    if |b| > 3 {
      SextetsLength(b[3..]);
    }
  }

  /** The encoding is four characters per started group of three bytes;
      in particular only the empty buffer encodes to the empty string. */
  lemma EncodeLength(b: seq<byte>)
    ensures |Encode(b)| == 4 * ((|b| + 2) / 3)
    ensures Encode(b) == "" <==> b == []
  {
    SextetsLength(b);
  }
}
