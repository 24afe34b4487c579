/**
 * Extensions.cs: the sub-array copy used for padding and slicing, the decoder of the
 * length-prefixed big integers inside a wrapped RSA key (the MPI format of section 3.2 of
 * RFC 4880), and the URL-safe base 64 used by the remote API.
 */
module Extensions {
  import opened Bytes
  import opened Wrappers
  import Base64

  /**
   * CopySubArray(source, length, offset, defaultValue): a new array of exactly `length`
   * elements, element i taken from source[offset + i] where that exists and `defaultValue`
   * past the end of the source. The loop fills it from the last index down, as the source does.
   */
  method CopySubArray<T>(source: seq<T>, length: nat, offset: nat, defaultValue: T) returns (result: seq<T>)
    ensures |result| == length
    ensures forall i | 0 <= i < length ::
              result[i] == if offset + i < |source| then source[offset + i] else defaultValue
    ensures offset + length <= |source| ==> result == source[offset..offset + length]
    ensures offset <= |source| <= offset + length ==>
              result == source[offset..] + seq(offset + length - |source|, _ => defaultValue)
  {
    var a := new T[length](_ => defaultValue);
    var n := length;
    while n > 0
      invariant 0 <= n <= length
      invariant forall i | n <= i < length ::
                  a[i] == if offset + i < |source| then source[offset + i] else defaultValue
    {
      n := n - 1;
      if |source| > offset + n {
        a[n] := source[offset + n];
      } else {
        a[n] := defaultValue;
      }
    }
    result := a[..];
  }

  // ---------------------------------------------------------------------------------------
  // Length-prefixed big integers

  /** The byte length named by the 2-byte bit-length header: ceil(bits / 8). */
  function MpiByteLength(data: seq<byte>): nat
    requires |data| >= 2
  {
    (data[0] as nat * 256 + data[1] as nat + 7) / 8
  }

  /**
   * FromMPINumber: the unsigned big-endian value of the MpiByteLength(data) bytes that follow
   * the header. Too short an input (no header, or fewer magnitude bytes than the header
   * announces) throws in the source and is None here.
   */
  function FromMPINumber(data: seq<byte>): (r: Option<nat>)
    ensures r.Some? <==> |data| >= 2 && 2 + MpiByteLength(data) <= |data|
  {
    if |data| < 2 then None
    else
      var n := MpiByteLength(data);
      if |data| < 2 + n then None else Some(FromBigEndian(data[2..2 + n]))
  }

  /** Bits needed to write v < 256 in binary. */
  function SmallBitLength(v: nat): (r: nat)
    requires v < 256
    ensures v < Pow2(r) && (v > 0 ==> Pow2(r - 1) <= v) && r <= 8
  {
    if v == 0 then 0 else if v < 2 then 1 else if v < 4 then 2 else if v < 8 then 3
    else if v < 16 then 4 else if v < 32 then 5 else if v < 64 then 6 else if v < 128 then 7 else 8
  }

  lemma {:induction false} Pow2Add8(k: nat)
    ensures Pow2(k + 8) == 256 * Pow2(k)
  {
    var p := Pow2(k);
    assert Pow2(k + 1) == 2 * p;
    assert Pow2(k + 2) == 4 * p;
    assert Pow2(k + 3) == 8 * p;
    assert Pow2(k + 4) == 16 * p;
    assert Pow2(k + 5) == 32 * p;
    assert Pow2(k + 6) == 64 * p;
    assert Pow2(k + 7) == 128 * p;
  }

  /** The number of binary digits of v: 2^(r-1) <= v < 2^r, and 0 for v = 0. */
  function BitLength(v: nat): (r: nat)
    ensures v < Pow2(r) && (v > 0 ==> r > 0 && Pow2(r - 1) <= v)
  {
    if v < 256 then SmallBitLength(v)
    else
      var b := BitLength(v / 256);
      Pow2Add8(b);
      Pow2Add8(b - 1);
      b + 8
  }

  /** The MPI encoding of v: its bit length as two big-endian bytes, then its minimal magnitude. */
  function ToMPINumber(v: nat): (r: seq<byte>)
    requires BitLength(v) < 65536
  {
    var bits := BitLength(v);
    [(bits / 256) as byte, (bits % 256) as byte] + MinimalBigEndian(v)
  }

  /** The magnitude written after the header has exactly the length the header announces. */
  lemma {:induction false} MinimalLength(v: nat)
    ensures |MinimalBigEndian(v)| == (BitLength(v) + 7) / 8
  {
    if v >= 256 {
      MinimalLength(v / 256);
    }
  }

  /** FromMPINumber reads back what ToMPINumber wrote, whatever follows it in the buffer. */
  lemma MpiRoundTrip(v: nat, tail: seq<byte>)
    requires BitLength(v) < 65536
    ensures |ToMPINumber(v)| == 2 + (BitLength(v) + 7) / 8
    ensures MpiByteLength(ToMPINumber(v) + tail) == (BitLength(v) + 7) / 8
    ensures FromMPINumber(ToMPINumber(v) + tail) == Some(v)
  {
    var magnitude := MinimalBigEndian(v);
    var data := ToMPINumber(v) + tail;
    MinimalLength(v);
    MpiHeader(v, tail);
    assert data[2..2 + |magnitude|] == magnitude;
    FromMinimalBigEndian(v);
  }

  /** The header ToMPINumber writes announces exactly the magnitude's byte length. */
  lemma MpiHeader(v: nat, tail: seq<byte>)
    requires BitLength(v) < 65536
    ensures |ToMPINumber(v) + tail| >= 2
    ensures MpiByteLength(ToMPINumber(v) + tail) == (BitLength(v) + 7) / 8
  {
    var bits := BitLength(v);
    var data := ToMPINumber(v) + tail;
    assert data[0] == (bits / 256) as byte && data[1] == (bits % 256) as byte;
    HeaderLength(data, bits);
  }

  lemma HeaderLength(data: seq<byte>, bits: nat)
    requires bits < 65536 && |data| >= 2
    requires data[0] == (bits / 256) as byte && data[1] == (bits % 256) as byte
    ensures MpiByteLength(data) == (bits + 7) / 8
  {
  }

  /** Only the announced bytes are read: anything appended after them changes nothing. */
  lemma MpiIgnoresTail(data: seq<byte>, tail: seq<byte>)
    requires FromMPINumber(data).Some?
    ensures FromMPINumber(data + tail) == FromMPINumber(data)
  {
    var n := MpiByteLength(data);
    assert (data + tail)[..2] == data[..2];
    assert (data + tail)[2..2 + n] == data[2..2 + n];
  }

  // ---------------------------------------------------------------------------------------
  // URL-safe base 64

  /** StringBuilder.Replace(from, to) over the whole text. */
  function Replace(s: string, from: char, to: char): (r: string)
    ensures |r| == |s|
    ensures forall i | 0 <= i < |s| :: r[i] == if s[i] == from then to else s[i]
  {
    seq(|s|, i requires 0 <= i < |s| => if s[i] == from then to else s[i])
  }

  /** StringBuilder.Replace(c, string.Empty): every occurrence of c is deleted. */
  function Remove(s: string, c: char): (r: string)
    ensures c !in r && |r| <= |s|
  {
    if s == [] then [] else (if s[0] == c then [] else [s[0]]) + Remove(s[1..], c)
  }

  lemma {:induction false} RemoveAppend(a: string, b: string, c: char)
    ensures Remove(a + b, c) == Remove(a, c) + Remove(b, c)
  {
    if a != [] {
      assert (a + b)[1..] == a[1..] + b;
      RemoveAppend(a[1..], b, c);
    } else {
      assert a + b == b;
    }
  }

  lemma {:induction false} RemoveAbsent(s: string, c: char)
    requires c !in s
    ensures Remove(s, c) == s
  {
    if s != [] {
      RemoveAbsent(s[1..], c);
    }
  }

  lemma {:induction false} RemoveOnly(n: nat, c: char)
    ensures Remove(Base64.Repeat(c, n), c) == []
  {
    if n > 0 {
      assert Base64.Repeat(c, n)[1..] == Base64.Repeat(c, n - 1);
      RemoveOnly(n - 1, c);
    }
  }

  function UrlChar(c: char): char
  {
    if c == '+' then '-' else if c == '/' then '_' else c
  }

  function StandardChar(c: char): char
  {
    if c == '-' then '+' else if c == '_' then '/' else c
  }

  /** The URL-safe form of the standard encoding: its padding dropped, '+' as '-', '/' as '_'. */
  function UrlEncoding(data: seq<byte>): (s: string)
  {
    var std := Base64.Encode(data);
    Base64.EncodeShape(data);
    seq(|std| - Base64.PadCount(|data|), i requires 0 <= i < |std| - Base64.PadCount(|data|) => UrlChar(std[i]))
  }

  /** The URL-safe encoding uses neither '+', '/' nor '='. */
  lemma UrlEncodingAlphabet(data: seq<byte>)
    ensures '+' !in UrlEncoding(data) && '/' !in UrlEncoding(data) && '=' !in UrlEncoding(data)
  {
    Base64.EncodeShape(data);
  }

  /** The two replacements turn the standard encoding into the URL-safe one followed by the padding. */
  lemma UrlReplaced(data: seq<byte>)
    ensures Replace(Replace(Base64.Encode(data), '+', '-'), '/', '_')
         == UrlEncoding(data) + Base64.Repeat('=', Base64.PadCount(|data|))
  {
    var std := Base64.Encode(data);
    var k := Base64.PadCount(|data|);
    Base64.EncodeShape(data);
    var replaced := Replace(Replace(std, '+', '-'), '/', '_');
    var url := UrlEncoding(data);
    var padded := url + Base64.Repeat('=', k);
    forall i | 0 <= i < |std|
      ensures replaced[i] == padded[i]
    {
      if i < |std| - k {
        assert padded[i] == UrlChar(std[i]);
      } else {
        assert std[i] == '=';
        assert padded[i] == '=';
      }
    }
  }

  /**
   * ToBase64: the standard encoding with '+' replaced by '-', '/' by '_', and every '='
   * removed; the result never holds any of the three.
   */
  method ToBase64(data: seq<byte>) returns (s: string)
    ensures '+' !in s && '/' !in s && '=' !in s
    ensures s == UrlEncoding(data)
  {
    var sb := Base64.Encode(data);
    sb := Replace(sb, '+', '-');
    sb := Replace(sb, '/', '_');
    ghost var k := Base64.PadCount(|data|);
    ghost var body := UrlEncoding(data);
    UrlReplaced(data);
    UrlEncodingAlphabet(data);
    RemoveAppend(body, Base64.Repeat('=', k), '=');
    RemoveAbsent(body, '=');
    RemoveOnly(k, '=');
    sb := Remove(sb, '=');
    s := sb;
  }

  /**
   * The text FromBase64 hands to the standard decoder: the input padded with '=' to a length
   * that is a multiple of 4 (counted before commas go), '-' read as '+', '_' as '/', and every
   * ',' deleted.
   */
  function StandardText(data: string): (t: string)
  {
    Remove(StandardChars(data + Base64.Repeat('=', (4 - |data| % 4) % 4)), ',')
  }

  /** '-' read as '+' and '_' as '/', everything else kept. */
  function StandardChars(t: string): (r: string)
  {
    seq(|t|, i requires 0 <= i < |t| => StandardChar(t[i]))
  }

  /**
   * FromBase64: restore the standard alphabet and padding, then decode with the library
   * decoder `decode` (Convert.FromBase64String, None for text it rejects).
   */
  method FromBase64(decode: string -> Option<seq<byte>>, data: string) returns (r: Option<seq<byte>>)
    ensures r == decode(StandardText(data))
  {
    var sb := data;
    sb := sb + Base64.Repeat('=', (4 - |data| % 4) % 4);
    ghost var padded := sb;
    sb := Replace(sb, '-', '+');
    sb := Replace(sb, '_', '/');
    assert sb == StandardChars(padded);
    sb := Remove(sb, ',');
    r := decode(sb);
  }

  /** Restoring a URL-safe encoding gives back the standard encoding exactly. */
  lemma RestoreUrlEncoding(data: seq<byte>)
    ensures StandardText(UrlEncoding(data)) == Base64.Encode(data)
  {
    var std := Base64.Encode(data);
    var k := Base64.PadCount(|data|);
    var url := UrlEncoding(data);
    Base64.EncodeShape(data);
    PadRestored(|data|, |url|);
    RestoreMapped(data);
    RemoveAbsent(std, ',');
  }

  /** The padding FromBase64 adds back is exactly the padding ToBase64 removed. */
  lemma PadRestored(n: nat, urlLength: nat)
    requires urlLength + Base64.PadCount(n) == 4 * ((n + 2) / 3)
    ensures (4 - urlLength % 4) % 4 == Base64.PadCount(n)
  {
    var k := Base64.PadCount(n);
    var m := (n + 2) / 3;
    assert urlLength == 4 * (m - 1) + (4 - k) || (m == 0 && k == 0);
  }

  /** Mapping the padded URL-safe text back character by character restores the standard text. */
  lemma RestoreMapped(data: seq<byte>)
    ensures var url := UrlEncoding(data);
            var padded := url + Base64.Repeat('=', Base64.PadCount(|data|));
            StandardChars(padded) == Base64.Encode(data)
  {
    var std := Base64.Encode(data);
    var k := Base64.PadCount(|data|);
    Base64.EncodeShape(data);
    var url := UrlEncoding(data);
    var padded := url + Base64.Repeat('=', k);
    var mapped := StandardChars(padded);
    forall i | 0 <= i < |std|
      ensures mapped[i] == std[i]
    {
      if i < |std| - k {
        assert padded[i] == UrlChar(std[i]);
      } else {
        assert std[i] == '=';
      }
    }
  }

  /**
   * FromBase64(ToBase64(x)) == x, for a decoder that inverts the standard encoding on x.
   */
  lemma Base64RoundTrip(decode: string -> Option<seq<byte>>, x: seq<byte>)
    requires decode(Base64.Encode(x)) == Some(x)
    ensures decode(StandardText(UrlEncoding(x))) == Some(x)
  {
    RestoreUrlEncoding(x);
  }
}
