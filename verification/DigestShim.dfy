/** The libmd helpers End, Data and File over a digest whose internals are left abstract. The header
    for each digest differs only in the digest length. */
module DigestShim {
  import opened Machine

  type Bytes = seq<uint8>

  // ----- Hexadecimal -----

  function Digit(v: int): char
    requires 0 <= v < 16
  {
    if v < 10 then ('0' as int + v) as char else ('a' as int + (v - 10)) as char
  }

  /** The two digits of a byte. */
  function Pair(b: uint8): (s: string)
    ensures |s| == 2
  {
    [Digit(b / 16), Digit(b % 16)]
  }

  function HexString(d: Bytes): (s: string)
    ensures |s| == 2 * |d|
  {
    if d == [] then "" else HexString(d[..|d| - 1]) + Pair(d[|d| - 1])
  }

  predicate IsHexDigit(c: char) {
    '0' <= c <= '9' || 'a' <= c <= 'f'
  }

  function DigitValue(c: char): (v: int)
    requires IsHexDigit(c)
    ensures 0 <= v < 16
  {
    if '0' <= c <= '9' then c as int - '0' as int else c as int - 'a' as int + 10
  }

  function Unpair(hi: char, lo: char): uint8
    requires IsHexDigit(hi) && IsHexDigit(lo)
  {
    16 * DigitValue(hi) + DigitValue(lo)
  }

  predicate IsHexString(s: string) {
    |s| % 2 == 0 && forall i | 0 <= i < |s| :: IsHexDigit(s[i])
  }

  function HexDecode(s: string): (d: Bytes)
    requires IsHexString(s)
    ensures |d| == |s| / 2
  {
    if s == "" then []
    else HexDecode(s[..|s| - 2]) + [Unpair(s[|s| - 2], s[|s| - 1])]
  }

  lemma {:induction false} UnpairPair(b: uint8)
    ensures IsHexDigit(Pair(b)[0]) && IsHexDigit(Pair(b)[1]) && Unpair(Pair(b)[0], Pair(b)[1]) == b
  {
  }

  lemma {:induction false} PairUnpair(hi: char, lo: char)
    requires IsHexDigit(hi) && IsHexDigit(lo)
    ensures Pair(Unpair(hi, lo)) == [hi, lo]
  {
    var b := Unpair(hi, lo);
    assert b / 16 == DigitValue(hi) && b % 16 == DigitValue(lo);
  }

  lemma {:induction false} DecodeAppend(s: string, hi: char, lo: char)
    requires IsHexString(s) && IsHexDigit(hi) && IsHexDigit(lo)
    ensures IsHexString(s + [hi, lo])
    ensures HexDecode(s + [hi, lo]) == HexDecode(s) + [Unpair(hi, lo)]
  {
  }

  lemma {:induction false} PrintAppend(d: Bytes, b: uint8)
    ensures HexString(d + [b]) == HexString(d) + Pair(b)
  {
  }

  /** The printed digest is lower-case hexadecimal and decodes to the digest. */
  lemma {:induction false} PrintDecode(d: Bytes)
    ensures IsHexString(HexString(d)) && HexDecode(HexString(d)) == d
  {
    if d != [] {
      var before, b := d[..|d| - 1], d[|d| - 1];
      assert d == before + [b];
      PrintDecode(before);
      UnpairPair(b);
      PrintAppend(before, b);
      DecodeAppend(HexString(before), Pair(b)[0], Pair(b)[1]);
    }
  }

  /** The text has, for each byte in order, the digit of its upper and that of its lower four bits. */
  lemma {:induction false} PrintAt(d: Bytes, i: nat)
    requires i < |d|
    ensures HexString(d)[i + i] == "0123456789abcdef"[d[i] / 16]
    ensures HexString(d)[i + i + 1] == "0123456789abcdef"[d[i] % 16]
  {
    HexTable(d[i] / 16);
    HexTable(d[i] % 16);
    if i < |d| - 1 {
      PrintAt(d[..|d| - 1], i);
    }
  }

  const HEX: string := "0123456789abcdef"

  lemma {:induction false} HexTable(v: int)
    requires 0 <= v < 16
    ensures HEX[v] == Digit(v) == "0123456789abcdef"[v]
  {
  }

  /** Every lower-case hexadecimal string of even length is the print of what it decodes to. */
  lemma {:induction false} DecodePrint(s: string)
    requires IsHexString(s)
    ensures HexString(HexDecode(s)) == s
  {
    if s != "" {
      var before, hi, lo := s[..|s| - 2], s[|s| - 2], s[|s| - 1];
      assert s == before + [hi, lo];
      DecodePrint(before);
      PairUnpair(hi, lo);
      DecodeAppend(before, hi, lo);
      PrintAppend(HexDecode(before), Unpair(hi, lo));
    }
  }

  /** Two digests that print alike are alike. */
  lemma {:induction false} PrintInjective(d: Bytes, e: Bytes)
    requires HexString(d) == HexString(e)
    ensures d == e
  {
    PrintDecode(d);
    PrintDecode(e);
  }

  // ----- The digest -----

  /** A digest algorithm: a function of all the bytes, with results of one length. */
  datatype Algorithm = Algorithm(hash: Bytes -> Bytes, length: nat) {
    ghost predicate Valid() {
      forall data: Bytes :: |hash(data)| == length
    }
  }

  /** The context is the bytes absorbed so far. */
  class Context {
    var absorbed: Bytes

    constructor Init()
      ensures absorbed == []
    {
      absorbed := [];
    }

    method Update(data: Bytes)
      requires |data| < TWO32
      modifies this
      ensures absorbed == old(absorbed) + data
    {
      absorbed := absorbed + data;
    }

    method Final(alg: Algorithm) returns (digest: Bytes)
      requires alg.Valid()
      ensures digest == alg.hash(absorbed) && |digest| == alg.length
    {
      digest := alg.hash(absorbed);
    }
  }

  // ----- The helpers -----

  /** buf holds the C string s; what lies behind it is untouched. */
  twostate predicate Holds(buf: array<char>, s: string)
    reads buf
  {
    |s| < buf.Length && buf[..|s|] == s && buf[|s|] == '\0' && buf[|s| + 1..] == old(buf[|s| + 1..])
  }

  method PrintHex(digest: Bytes, buf: array<char>)
    requires 2 * |digest| < buf.Length
    modifies buf
    ensures Holds(buf, HexString(digest))
    ensures forall i | 0 <= i < |digest| ::
              buf[2 * i] == "0123456789abcdef"[digest[i] / 16] && buf[2 * i + 1] == "0123456789abcdef"[digest[i] % 16]
  {
    ghost var text := HexString(digest);
    var i := 0;
    while i < |digest|
      invariant 0 <= i <= |digest|
      invariant forall k | 0 <= k < i + i :: buf[k] == text[k]
      invariant forall k | i + i <= k < buf.Length :: buf[k] == old(buf[k])
    {
      PrintAt(digest, i);
      HexTable(digest[i] / 16);
      HexTable(digest[i] % 16);
      buf[i + i] := HEX[digest[i] / 16];
      buf[i + i + 1] := HEX[digest[i] % 16];
      i := i + 1;
    }
    buf[i + i] := '\0';
    forall k | 0 <= k < |digest|
      ensures buf[2 * k] == "0123456789abcdef"[digest[k] / 16]
      ensures buf[2 * k + 1] == "0123456789abcdef"[digest[k] % 16]
    {
      PrintAt(digest, k);
      assert buf[2 * k] == text[2 * k] && buf[2 * k + 1] == text[2 * k + 1];
    }
  }

  method End(alg: Algorithm, c: Context, buf: array?<char>) returns (r: array?<char>)
    requires alg.Valid() && (buf != null ==> 2 * alg.length < buf.Length)
    modifies buf
    ensures r == buf
    ensures buf != null ==> Holds(buf, HexString(alg.hash(c.absorbed)))
  {
    if buf == null {
      return null;
    }
    var digest := c.Final(alg);
    PrintHex(digest, buf);
    return buf;
  }

  method Data(alg: Algorithm, data: Bytes, buf: array?<char>) returns (r: array?<char>)
    requires alg.Valid() && |data| < TWO32 && (buf != null ==> 2 * alg.length < buf.Length)
    modifies buf
    ensures r == buf
    ensures buf != null ==> Holds(buf, HexString(alg.hash(data)))
  {
    var c := new Context.Init();
    c.Update(data);
    assert c.absorbed == data;
    r := End(alg, c, buf);
  }

  /** What fopen yields, and then fread, call by call. */
  datatype File = Missing | Opened(chunks: seq<Bytes>)

  const CHUNK: int := 65536

  /** What the read loop absorbs: everything up to the first read that yields nothing. */
  function Contents(chunks: seq<Bytes>): Bytes {
    if chunks == [] || chunks[0] == [] then [] else chunks[0] + Contents(chunks[1..])
  }

  function Join(chunks: seq<Bytes>): Bytes {
    if chunks == [] then [] else chunks[0] + Join(chunks[1..])
  }

  /** Whatever way the contents arrive in nonempty chunks, the file is read to its end. */
  lemma {:induction false} ChunkingInvisible(chunks: seq<Bytes>, rest: seq<Bytes>)
    requires forall i | 0 <= i < |chunks| :: chunks[i] != []
    ensures Contents(chunks + [[]] + rest) == Join(chunks) == Contents(chunks)
  {
    if chunks != [] {
      assert (chunks + [[]] + rest)[1..] == chunks[1..] + [[]] + rest;
      ChunkingInvisible(chunks[1..], rest);
    } else {
      assert (chunks + [[]] + rest)[0] == [];
    }
  }

  /** The read loop. */
  method Absorb(c: Context, chunks: seq<Bytes>)
    requires forall i | 0 <= i < |chunks| :: |chunks[i]| <= CHUNK
    modifies c
    ensures c.absorbed == old(c.absorbed) + Contents(chunks)
  {
    var i := 0;
    while i < |chunks| && |chunks[i]| > 0
      invariant 0 <= i <= |chunks|
      invariant c.absorbed + Contents(chunks[i..]) == old(c.absorbed) + Contents(chunks)
    {
      assert chunks[i..][1..] == chunks[i + 1..];
      c.Update(chunks[i]);
      i := i + 1;
    }
  }

  method FileDigest(alg: Algorithm, file: File, buf: array?<char>) returns (r: array?<char>)
    requires alg.Valid() && (buf != null ==> 2 * alg.length < buf.Length)
    requires file.Opened? ==> forall i | 0 <= i < |file.chunks| :: |file.chunks[i]| <= CHUNK
    modifies buf
    ensures r == if file.Missing? then null else buf
    ensures r != null ==> Holds(buf, HexString(alg.hash(Contents(file.chunks))))
    ensures r != null && (forall i | 0 <= i < |file.chunks| :: file.chunks[i] != []) ==>
              Holds(buf, HexString(alg.hash(Join(file.chunks))))
    ensures r == null && buf != null ==> buf[..] == old(buf[..])
  {
    if buf == null || file.Missing? {
      return null;
    }
    var c := new Context.Init();
    Absorb(c, file.chunks);
    assert c.absorbed == Contents(file.chunks);
    if forall i | 0 <= i < |file.chunks| :: file.chunks[i] != [] {
      ChunkingInvisible(file.chunks, []);
    }
    var digest := c.Final(alg);
    PrintHex(digest, buf);
    return buf;
  }

  /** Bytes can be cut anywhere: every split of the same bytes gives the same contents. */
  lemma {:induction false} SplitsAgree(xs: seq<Bytes>, ys: seq<Bytes>)
    requires Join(xs) == Join(ys)
    requires forall i | 0 <= i < |xs| :: xs[i] != []
    requires forall i | 0 <= i < |ys| :: ys[i] != []
    ensures Contents(xs) == Contents(ys)
  {
    ChunkingInvisible(xs, []);
    ChunkingInvisible(ys, []);
  }

  /** File on any split of the data into nonempty chunks prints the text that Data prints. */
  method FileMatchesData(alg: Algorithm, chunks: seq<Bytes>, fileBuf: array<char>, dataBuf: array<char>)
    requires alg.Valid() && 2 * alg.length < fileBuf.Length && 2 * alg.length < dataBuf.Length && fileBuf != dataBuf
    requires |Join(chunks)| < TWO32 && forall i | 0 <= i < |chunks| :: 0 < |chunks[i]| <= CHUNK
    modifies fileBuf, dataBuf
    ensures fileBuf[..2 * alg.length + 1] == dataBuf[..2 * alg.length + 1]
  {
    var _ := FileDigest(alg, Opened(chunks), fileBuf);
    ghost var text := HexString(alg.hash(Join(chunks)));
    assert fileBuf[..|text| + 1] == text + ['\0'];
    var _ := Data(alg, Join(chunks), dataBuf);
    assert dataBuf[..|text| + 1] == text + ['\0'];
  }
}
