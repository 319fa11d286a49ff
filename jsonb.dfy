/** The `jsonb` type: a raw JSON text, sent in PostgreSQL's binary jsonb
    format, which is a one-byte format version (1) followed by the text. */
module JsonbCodec {
  import opened Wrappers
  import opened Bytes
  import opened Streams

  const JsonbVersion: Byte := 1

  datatype JsonbError =
    | RangeError(size: int)   // the declared size cannot even hold the version byte
    | Truncated               // the stream ends before the declared size

  class Jsonb {
    var value: seq<Byte>

    /** Store the given raw text. */
    constructor (raw: seq<Byte>)
      ensures value == raw
    {
      value := raw;
    }

    /** `raw_string()`: the stored raw text, unchanged. */
    function RawString(): (s: seq<Byte>)
      reads this
      ensures s == value
    {
      value
    }
  }

  /** `size_of`: the text plus the version byte; exactly the size with
      which `recv` reads the text back from what `send` wrote. */
  function JsonbSize(raw: seq<Byte>): (n: nat)
    ensures n >= 1 && ParseJsonb(n, [JsonbVersion] + raw, 0) == Ok((raw, n))
  {
    assert ([JsonbVersion] + raw)[1..|raw| + 1] == raw;
    |raw| + 1
  }

  /** The bytes `send` writes for a raw text. */
  function JsonbBytes(raw: seq<Byte>): (s: seq<Byte>)
    ensures |s| == JsonbSize(raw) && s[0] == JsonbVersion && s[1..] == raw
  {
    [JsonbVersion] + raw
  }

  /** `recv` of a frame of `size` bytes at pos: a size below 1 is refused
      before anything is read; otherwise one version byte is consumed
      without being checked, then exactly size - 1 bytes are the text. */
  function ParseJsonb(size: int, data: seq<Byte>, pos: nat): (r: Result<(seq<Byte>, nat), JsonbError>)
    requires pos <= |data|
    ensures r.Ok? ==> size >= 1 && |r.value.0| == size - 1 && r.value.1 == pos + size <= |data|
    ensures r.Ok? ==> r.value.0 == data[pos + 1..pos + size]
    ensures size < 1 ==> r == Err(RangeError(size))
    ensures size >= 1 ==> (r.Ok? <==> pos + size <= |data|)
  {
    if size < 1 then Err(RangeError(size))
    else if pos + 1 > |data| then Err(Truncated)
    else if pos + 1 + (size - 1) > |data| then Err(Truncated)
    else Ok((data[pos + 1..pos + 1 + (size - 1)], pos + size))
  }

  /** Round trip: reading back what `send` wrote, with the size `size_of`
      gave, yields the original text and consumes exactly those bytes. */
  lemma ParseJsonbBytes(raw: seq<Byte>, data: seq<Byte>, pos: nat)
    requires pos + JsonbSize(raw) <= |data| && data[pos..pos + JsonbSize(raw)] == JsonbBytes(raw)
    ensures ParseJsonb(JsonbSize(raw), data, pos) == Ok((raw, pos + JsonbSize(raw)))
  {
    assert data[pos + 1..pos + JsonbSize(raw)] == data[pos..pos + JsonbSize(raw)][1..];
  }

  /** The version byte is not inspected: any byte in its place reads the
      same text. */
  lemma VersionByteIgnored(raw: seq<Byte>, version: Byte, data: seq<Byte>, pos: nat)
    requires pos + |raw| + 1 <= |data| && data[pos..pos + |raw| + 1] == [version] + raw
    ensures ParseJsonb(|raw| + 1, data, pos) == Ok((raw, pos + |raw| + 1))
  {
    assert data[pos + 1..pos + |raw| + 1] == data[pos..pos + |raw| + 1][1..];
  }

  /** `std::string::resize`: keep the first n bytes, pad with zero bytes. */
  function Resize(s: seq<Byte>, n: nat): (r: seq<Byte>)
    ensures |r| == n
    ensures forall i :: 0 <= i < n ==> r[i] == if i < |s| then s[i] else 0
  {
    if n <= |s| then s[..n] else s + seq(n - |s|, _ => 0)
  }

  /** A jsonb built from a text gives that text back. */
  method RawStringRoundTrip(raw: seq<Byte>) returns (s: seq<Byte>)
    ensures s == raw
  {
    var j := new Jsonb(raw);
    s := j.RawString();
  }

  /** `send`: the version byte, then the text. */
  method Send(os: OStream, j: Jsonb)
    modifies os
    ensures os.buffer == old(os.buffer) + JsonbBytes(j.value)
  {
    os.Write([JsonbVersion]);
    os.Write(j.value);
    assert old(os.buffer) + [JsonbVersion] + j.value == old(os.buffer) + ([JsonbVersion] + j.value);
  }

  /** `recv` into an existing jsonb: on success its text is replaced by the
      bytes read; a refused size leaves both the stream and the value alone. */
  method Recv(input: IStream, size: int, out: Jsonb) returns (r: Outcome<JsonbError>)
    requires input.Valid()
    modifies input, out
    ensures input.Valid()
    ensures var p := ParseJsonb(size, input.data, old(input.pos));
      (r.Pass? <==> p.Ok?) &&
      (p.Ok? ==> out.value == p.value.0 && input.pos == p.value.1) &&
      (p.Err? ==> r.Fail? && r.error == p.error)
    ensures size < 1 ==> input.pos == old(input.pos) && out.value == old(out.value)
    ensures r.Fail? && size >= 1 && old(input.pos) < |input.data| ==> out.value == Resize(old(out.value), size - 1)
  {
    if size < 1 {
      return Fail(RangeError(size));
    }
    var version := input.Read(1);
    if version.None? {
      return Fail(Truncated);
    }
    out.value := Resize(out.value, size - 1);
    var text := input.Read(size - 1);
    if text.None? {
      return Fail(Truncated);
    }
    out.value := text.value;
    return Pass;
  }
}
