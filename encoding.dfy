/**
 * The canonical text a block hashes (block.rs `hash_string_for_proof`):
 *
 *     <prev_hash as 64 lowercase hex digits>:<generation>:<difficulty>:<data>:<proof>
 *
 * with the three numbers in Rust's `{}` decimal format. Besides the encoder,
 * this module defines a decoder and proves that it inverts the encoder, so the
 * encoding is injective: the text determines all five fields.
 */
module Encoding {
  import opened Types

  /** A hexadecimal digit value. */
  type Nibble = x: int | 0 <= x < 16

  /** The fields that enter the canonical string, in their order there. */
  datatype Fields = Fields(prevHash: seq<u8>, generation: nat, difficulty: nat, data: string, proof: nat)

  // ---------------------------------------------------------------------------
  // Hexadecimal: `format!("{:02x}", b)` for each byte of `prev_hash`

  /** The lowercase hex digit for `v`. */
  function HexDigit(v: Nibble): char
  {
    if v < 10 then ('0' as int + v) as char else ('a' as int + v - 10) as char
  }

  /** The value of a lowercase hex digit; `None` for any other character. */
  function HexValue(c: char): Option<Nibble>
  {
    if '0' <= c <= '9' then Some(c as int - '0' as int)
    else if 'a' <= c <= 'f' then Some(c as int - 'a' as int + 10)
    else None
  }

  predicate IsLowerHex(c: char)
  {
    '0' <= c <= '9' || 'a' <= c <= 'f'
  }

  /** `{:02x}`: exactly two lowercase digits, high nibble first, zero-padded. */
  function ByteHex(b: u8): (s: string)
    ensures |s| == 2 && IsLowerHex(s[0]) && IsLowerHex(s[1])
    ensures HexValue(s[0]) == Some(b / 16) && HexValue(s[1]) == Some(b % 16)
  {
    [HexDigit(b / 16), HexDigit(b % 16)]
  }

  /** The hex rendering of a byte string, two digits per byte, in order. */
  function Hex(bytes: seq<u8>): (s: string)
    ensures |s| == 2 * |bytes|
    ensures forall i :: 0 <= i < |s| ==> IsLowerHex(s[i])
  {
    if bytes == [] then [] else ByteHex(bytes[0]) + Hex(bytes[1..])
  }

  /** Reads pairs of lowercase hex digits back into bytes. */
  function UnHex(s: string): Option<seq<u8>>
  {
    if s == [] then Some([])
    else if |s| == 1 then None
    else
      match (HexValue(s[0]), HexValue(s[1]), UnHex(s[2..]))
      case (Some(hi), Some(lo), Some(rest)) => Some([hi as int * 16 + lo as int] + rest)
      case _ => None
  }

  /** Byte `i` of the input is rendered at positions `2i` and `2i+1`, in order. */
  lemma {:induction false} HexAt(bytes: seq<u8>, i: nat)
    requires i < |bytes|
    ensures Hex(bytes)[2 * i .. 2 * i + 2] == ByteHex(bytes[i])
  {
    if i > 0 {
      HexAt(bytes[1..], i - 1);
      assert Hex(bytes) == ByteHex(bytes[0]) + Hex(bytes[1..]);
    }
  }

  /** Hex decoding inverts hex encoding. */
  lemma {:induction false} UnHexHex(bytes: seq<u8>)
    ensures UnHex(Hex(bytes)) == Some(bytes)
  {
    if bytes != [] {
      var s := Hex(bytes);
      UnHexHex(bytes[1..]);
      assert s[2..] == Hex(bytes[1..]);
      assert bytes == [bytes[0] / 16 * 16 + bytes[0] % 16] + bytes[1..];
    }
  }

  /** An all-zero byte string is rendered as twice as many '0' characters. */
  lemma {:induction false} HexOfZeros(n: nat)
    ensures Hex(seq(n, _ => 0)) == seq(2 * n, _ => '0')
  {
    if n > 0 {
      var z: seq<u8> := seq(n, _ => 0);
      HexOfZeros(n - 1);
      assert z[1..] == seq(n - 1, _ => 0);
      assert Hex(z) == "00" + Hex(z[1..]);
    }
  }

  // ---------------------------------------------------------------------------
  // Decimal: Rust's `{}` on an unsigned integer

  predicate IsDigit(c: char)
  {
    '0' <= c <= '9'
  }

  predicate AllDigits(s: string)
  {
    forall i :: 0 <= i < |s| ==> IsDigit(s[i])
  }

  /** The decimal digit for `d`. */
  function DigitChar(d: int): char
    requires 0 <= d < 10
  {
    ('0' as int + d) as char
  }

  /** Decimal rendering: at least one digit, no leading zero unless the value is 0. */
  function Decimal(n: nat): (s: string)
    ensures 1 <= |s| && AllDigits(s)
    ensures s[0] == '0' ==> n == 0
  {
    if n < 10 then [DigitChar(n)] else Decimal(n / 10) + [DigitChar(n % 10)]
  }

  /** The value of a string of decimal digits. */
  function DigitsValue(s: string): nat
    requires AllDigits(s)
  {
    if s == [] then 0 else DigitsValue(s[..|s| - 1]) * 10 + (s[|s| - 1] as int - '0' as int)
  }

  /** Reads a non-empty string of decimal digits. */
  function ParseDecimal(s: string): Option<nat>
  {
    if s != [] && AllDigits(s) then Some(DigitsValue(s)) else None
  }

  /** Decimal rendering is read back to the same number. */
  lemma {:induction false} DecimalRoundTrip(n: nat)
    ensures ParseDecimal(Decimal(n)) == Some(n)
  {
    var s := Decimal(n);
    if n >= 10 {
      DecimalRoundTrip(n / 10);
      assert s[..|s| - 1] == Decimal(n / 10);
      assert s[|s| - 1] as int - '0' as int == n % 10;
      assert DigitsValue(s) == (n / 10) * 10 + n % 10;
    } else {
      assert s[..0] == [];
    }
  }

  // ---------------------------------------------------------------------------
  // Splitting at the field separator

  /** Splits at the first ':'; `None` when there is none. */
  function SplitFirst(s: string): Option<(string, string)>
  {
    if s == [] then None
    else if s[0] == ':' then Some(([], s[1..]))
    else
      match SplitFirst(s[1..])
      case Some((a, b)) => Some(([s[0]] + a, b))
      case None => None
  }

  /** Splits at the last ':'; `None` when there is none. */
  function SplitLast(s: string): Option<(string, string)>
  {
    if s == [] then None
    else if s[|s| - 1] == ':' then Some((s[..|s| - 1], []))
    else
      match SplitLast(s[..|s| - 1])
      case Some((a, b)) => Some((a, b + [s[|s| - 1]]))
      case None => None
  }

  lemma {:induction false} SplitFirstAt(x: string, y: string)
    requires ':' !in x
    ensures SplitFirst(x + ":" + y) == Some((x, y))
  {
    if x != [] {
      SplitFirstAt(x[1..], y);
      assert (x + ":" + y)[1..] == x[1..] + ":" + y;
      assert [x[0]] + x[1..] == x;
    }
  }

  lemma {:induction false} SplitLastAt(x: string, y: string)
    requires ':' !in y
    ensures SplitLast(x + ":" + y) == Some((x, y))
  {
    var s := x + ":" + y;
    if y == [] {
      assert s[..|s| - 1] == x;
    } else {
      var y' := y[..|y| - 1];
      SplitLastAt(x, y');
      assert s[..|s| - 1] == x + ":" + y';
      assert y' + [y[|y| - 1]] == y;
    }
  }

  lemma DecimalHasNoColon(n: nat)
    ensures ':' !in Decimal(n)
  {
  }

  // ---------------------------------------------------------------------------
  // The canonical string and its decoder

  /** `format!("{}:{}:{}:{}:{}", prev_hash_hex, generation, difficulty, data, proof)`. */
  function Encode(f: Fields): string
  {
    Hex(f.prevHash) + ":" + Decimal(f.generation) + ":" + Decimal(f.difficulty) + ":" + f.data + ":" + Decimal(f.proof)
  }

  /**
   * Reads a canonical string: 64 hex digits and ':', then the generation and
   * the difficulty up to the next two ':', then the proof after the LAST ':';
   * whatever lies between is the data, which may itself contain ':'.
   */
  function Decode(s: string): Option<Fields>
  {
    if |s| < 65 || s[64] != ':' then None
    else
      var hash := UnHex(s[..64]);
      var first := SplitFirst(s[65..]);
      if hash.None? || first.None? then None
      else
        var second := SplitFirst(first.value.1);
        if second.None? then None
        else
          var last := SplitLast(second.value.1);
          if last.None? then None
          else
            var g := ParseDecimal(first.value.0);
            var d := ParseDecimal(second.value.0);
            var p := ParseDecimal(last.value.1);
            if g.None? || d.None? || p.None? then None
            else Some(Fields(hash.value, g.value, d.value, last.value.0, p.value))
  }

  /** Decoding inverts the canonical encoding for every 32-byte predecessor hash. */
  lemma DecodeEncode(f: Fields)
    requires |f.prevHash| == 32
    ensures Decode(Encode(f)) == Some(f)
  {
    var h := Hex(f.prevHash);
    var g := Decimal(f.generation);
    var d := Decimal(f.difficulty);
    var p := Decimal(f.proof);
    var s := Encode(f);
    var rest2 := f.data + ":" + p;
    var rest1 := d + ":" + rest2;
    var tail := g + ":" + rest1;
    assert s == h + ":" + tail;
    assert |h| == 64 && s[..64] == h && s[64] == ':' && s[65..] == tail;
    UnHexHex(f.prevHash);
    DecimalHasNoColon(f.generation);
    DecimalHasNoColon(f.difficulty);
    DecimalHasNoColon(f.proof);
    SplitFirstAt(g, rest1);
    SplitFirstAt(d, rest2);
    SplitLastAt(f.data, p);
    DecimalRoundTrip(f.generation);
    DecimalRoundTrip(f.difficulty);
    DecimalRoundTrip(f.proof);
    DecodeSteps(s, f.prevHash, g, d, f.data, p, rest1, rest2);
  }

  /** One step of `Decode`, spelled out on the pieces the encoder produced. */
  lemma DecodeSteps(s: string, hash: seq<u8>, g: string, d: string, data: string, p: string, rest1: string, rest2: string)
    requires |s| >= 65 && s[64] == ':'
    requires UnHex(s[..64]) == Some(hash)
    requires SplitFirst(s[65..]) == Some((g, rest1))
    requires SplitFirst(rest1) == Some((d, rest2))
    requires SplitLast(rest2) == Some((data, p))
    requires ParseDecimal(g).Some? && ParseDecimal(d).Some? && ParseDecimal(p).Some?
    ensures Decode(s) == Some(Fields(hash, ParseDecimal(g).value, ParseDecimal(d).value, data, ParseDecimal(p).value))
  {
  }

  /** The canonical string determines all five fields. */
  lemma EncodeInjective(f1: Fields, f2: Fields)
    requires |f1.prevHash| == 32 && |f2.prevHash| == 32
    requires Encode(f1) == Encode(f2)
    ensures f1 == f2
  {
    DecodeEncode(f1);
    DecodeEncode(f2);
  }

  /**
   * Layout of the canonical string: the 64 hex digits of the predecessor hash
   * come first, in order, followed by ':'.
   */
  lemma EncodeLayout(f: Fields)
    requires |f.prevHash| == 32
    ensures |Encode(f)| > 64 && Encode(f)[64] == ':'
    ensures forall i :: 0 <= i < 32 ==> Encode(f)[2 * i .. 2 * i + 2] == ByteHex(f.prevHash[i])
  {
    var h := Hex(f.prevHash);
    assert Encode(f) == h + (":" + Decimal(f.generation) + ":" + Decimal(f.difficulty) + ":" + f.data + ":" + Decimal(f.proof));
    forall i | 0 <= i < 32
      ensures Encode(f)[2 * i .. 2 * i + 2] == ByteHex(f.prevHash[i])
    {
      HexAt(f.prevHash, i);
    }
  }
}
