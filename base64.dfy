/**
 * The standard base 64 encoding of section 4 of RFC 4648, with '=' padding, as
 * Convert.ToBase64String produces it.
 */
module Base64 {
  import opened Bytes

  /** The character of a 6-bit value: A-Z, a-z, 0-9, '+', '/'. */
  function Digit(v: nat): (c: char)
    requires v < 64
    ensures c != '=' && c != '-' && c != '_' && c != ','
  {
    if v < 26 then ('A' as int + v) as char
    else if v < 52 then ('a' as int + (v - 26)) as char
    else if v < 62 then ('0' as int + (v - 52)) as char
    else if v == 62 then '+'
    else '/'
  }

  /** The number of '=' characters that end the encoding of n bytes. */
  function PadCount(n: nat): (k: nat)
    ensures k <= 2
  {
    (3 - n % 3) % 3
  }

  function Repeat(c: char, n: nat): (r: string)
    ensures |r| == n && forall i | 0 <= i < n :: r[i] == c
  {
    seq(n, _ => c)
  }

  /** Each group of three bytes becomes four digits; a final group of one or two bytes is padded. */
  function Encode(data: seq<byte>): (s: string)
    ensures |s| == 4 * ((|data| + 2) / 3)
  {
    if |data| == 0 then ""
    else
      var v0 := data[0] as nat;
      if |data| == 1 then
        [Digit(v0 / 4), Digit((v0 % 4) * 16)] + Repeat('=', 2)
      else
        var v1 := data[1] as nat;
        if |data| == 2 then
          [Digit(v0 / 4), Digit((v0 % 4) * 16 + v1 / 16), Digit((v1 % 16) * 4)] + Repeat('=', 1)
        else
          var v2 := data[2] as nat;
          [Digit(v0 / 4), Digit((v0 % 4) * 16 + v1 / 16), Digit((v1 % 16) * 4 + v2 / 64), Digit(v2 % 64)]
          + Encode(data[3..])
  }

  /**
   * The encoding ends in exactly PadCount '=' characters, has no '=' before them, and never
   * uses the URL-safe digits '-' and '_' nor ','.
   */
  lemma {:induction false} EncodeShape(data: seq<byte>)
    ensures PadCount(|data|) <= |Encode(data)|
    ensures forall i | 0 <= i < |Encode(data)| ::
              Encode(data)[i] == '=' <==> i >= |Encode(data)| - PadCount(|data|)
    ensures forall i | 0 <= i < |Encode(data)| ::
              Encode(data)[i] != '-' && Encode(data)[i] != '_' && Encode(data)[i] != ','
    decreases |data|
  {
    if |data| >= 3 {
      var s := Encode(data);
      var rest := Encode(data[3..]);
      EncodeShape(data[3..]);
      assert PadCount(|data|) == PadCount(|data| - 3);
      assert forall i | 4 <= i < |s| :: s[i] == rest[i - 4];
    }
  }
}
