/** The byte source the codec reads from: a `BufReader` over a file, seen as
    the file's bytes and a read position, with the `std::io::Read` and
    `byteorder::ReadBytesExt` operations the codec calls. The only I/O error
    such a source can raise here is end of input. */
module Io {
  import opened Wrappers
  import opened Bytes

  /** `std::io::ErrorKind`, reduced to the kind the codec tells apart. */
  datatype ErrorKind = UnexpectedEof | Other

  /** `std::io::Error`. */
  datatype Error = Error(kind: ErrorKind)

  /** A value read from `data` and the position just after it. */
  datatype Parsed<+T> = Parsed(value: T, next: nat)

  /** Attaches the reader's position to a successful read result. */
  function WithPos<T, E>(res: Result<T, E>, next: nat): (r: Result<Parsed<T>, E>)
    ensures r.Ok? <==> res.Ok?
    ensures r.Ok? ==> r.value == Parsed(res.value, next)
    ensures r.Err? ==> r.error == res.error
  {
    match res
    case Ok(v) => Ok(Parsed(v, next))
    case Err(e) => Err(e)
  }

  /** `Read::read` into an `n`-byte buffer, on a file: it fills the buffer
      up to the end of the input and never fails. */
  function ReadAt(data: seq<byte>, pos: nat, n: nat): (r: Parsed<seq<byte>>)
    requires pos <= |data|
    ensures pos <= r.next <= |data|
    ensures |r.value| == if pos + n <= |data| then n else |data| - pos
    ensures r.value == data[pos..r.next]
  {
    var end := if pos + n <= |data| then pos + n else |data|;
    Parsed(data[pos..end], end)
  }

  /** `Read::read_exact` of `n` bytes: exactly those bytes, or end of input. */
  function ExactAt(data: seq<byte>, pos: nat, n: nat): (r: Result<Parsed<seq<byte>>, Error>)
    requires pos <= |data|
    ensures r.Ok? <==> pos + n <= |data|
    ensures r.Ok? ==> r.value.next == pos + n && r.value.value == data[pos..pos + n]
    ensures r.Err? ==> r.error.kind == UnexpectedEof
  {
    if pos + n <= |data| then Ok(Parsed(data[pos..pos + n], pos + n))
    else Err(Error(UnexpectedEof))
  }

  /** `read_u16::<LittleEndian>`. */
  function U16At(data: seq<byte>, pos: nat): (r: Result<Parsed<u16>, Error>)
    requires pos <= |data|
    ensures r.Ok? <==> pos + 2 <= |data|
    ensures r.Ok? ==> r.value.next == pos + 2 && LittleEndian(r.value.value, 2) == data[pos..pos + 2]
    ensures r.Err? ==> r.error.kind == UnexpectedEof
  {
    var bytes :- ExactAt(data, pos, 2);
    ToFromLittleEndian(bytes.value);
    Ok(Parsed(FromLittleEndian(bytes.value), bytes.next))
  }

  /** `read_u64::<LittleEndian>`. */
  function U64At(data: seq<byte>, pos: nat): (r: Result<Parsed<u64>, Error>)
    requires pos <= |data|
    ensures r.Ok? <==> pos + 8 <= |data|
    ensures r.Ok? ==> r.value.next == pos + 8 && LittleEndian(r.value.value, 8) == data[pos..pos + 8]
    ensures r.Err? ==> r.error.kind == UnexpectedEof
  {
    var bytes :- ExactAt(data, pos, 8);
    ToFromLittleEndian(bytes.value);
    Ok(Parsed(FromLittleEndian(bytes.value), bytes.next))
  }

  lemma Pow256Widths()
    ensures Pow256(2) == 0x1_0000
    ensures Pow256(8) == 0x1_0000_0000_0000_0000
  {
    assert Pow256(4) == 0x1_0000_0000 by {
      assert Pow256(2) == 0x1_0000;
    }
  }

  /** Bytes that lie at `pos` are what `read_exact` returns there, and the
      reader is left where the rest begins. */
  lemma ExactFrom(data: seq<byte>, pos: nat, s: seq<byte>, rest: seq<byte>)
    requires pos <= |data| && data[pos..] == s + rest
    ensures ExactAt(data, pos, |s|) == Ok(Parsed(s, pos + |s|))
    ensures data[pos + |s|..] == rest
  {
    assert data[pos..pos + |s|] == data[pos..][..|s|];
    assert data[pos + |s|..] == data[pos..][|s|..];
  }

  /** `read_exact` of `n` bytes where `rest` remains: the first `n` of them
      when there are that many, end of input otherwise. */
  lemma ExactOf(data: seq<byte>, pos: nat, rest: seq<byte>, n: nat)
    requires pos <= |data| && data[pos..] == rest
    ensures ExactAt(data, pos, n) ==
              if n <= |rest| then Ok(Parsed(rest[..n], pos + n)) else Err(Error(UnexpectedEof))
  {
    if n <= |rest| {
      assert data[pos..pos + n] == rest[..n];
    }
  }

  /** A little-endian `u16` written at `pos` reads back as itself. */
  lemma U16From(data: seq<byte>, pos: nat, x: u16, rest: seq<byte>)
    requires pos <= |data| && data[pos..] == LittleEndian(x, 2) + rest
    ensures U16At(data, pos) == Ok(Parsed(x, pos + 2))
    ensures data[pos + 2..] == rest
  {
    ExactFrom(data, pos, LittleEndian(x, 2), rest);
    Pow256Widths();
    FromToLittleEndian(x, 2);
  }

  /** A little-endian `u64` written at `pos` reads back as itself. */
  lemma U64From(data: seq<byte>, pos: nat, x: u64, rest: seq<byte>)
    requires pos <= |data| && data[pos..] == LittleEndian(x, 8) + rest
    ensures U64At(data, pos) == Ok(Parsed(x, pos + 8))
    ensures data[pos + 8..] == rest
  {
    ExactFrom(data, pos, LittleEndian(x, 8), rest);
    Pow256Widths();
    FromToLittleEndian(x, 8);
  }

  /** A `BufReader` over a file's contents, positioned at `pos`. */
  class Reader {
    const data: seq<byte>
    var pos: nat

    ghost predicate Valid()
      reads this
    {
      pos <= |data|
    }

    /** `BufReader::new(file)`. */
    constructor (file: seq<byte>)
      ensures Valid() && data == file && pos == 0
    {
      data := file;
      pos := 0;
    }

    /** `Read::read`. */
    method Read(n: nat) returns (buf: seq<byte>)
      requires Valid()
      modifies this
      ensures Valid()
      ensures Parsed(buf, pos) == ReadAt(data, old(pos), n)
    {
      var end := if pos + n <= |data| then pos + n else |data|;
      buf := data[pos..end];
      pos := end;
    }

    /** `Read::read_exact`: on a short input it consumes what is left and
        reports end of input. */
    method ReadExact(n: nat) returns (res: Result<seq<byte>, Error>)
      requires Valid()
      modifies this
      ensures Valid()
      ensures WithPos(res, pos) == ExactAt(data, old(pos), n)
      ensures res.Err? ==> pos == |data|
    {
      if pos + n <= |data| {
        res := Ok(data[pos..pos + n]);
        pos := pos + n;
      } else {
        res := Err(Error(UnexpectedEof));
        pos := |data|;
      }
    }

    /** `ReadBytesExt::read_u16::<LittleEndian>`. */
    method ReadU16() returns (res: Result<u16, Error>)
      requires Valid()
      modifies this
      ensures Valid()
      ensures WithPos(res, pos) == U16At(data, old(pos))
    {
      var bytes := ReadExact(2);
      if bytes.Err? {
        return Err(bytes.error);
      }
      ToFromLittleEndian(bytes.value);
      res := Ok(FromLittleEndian(bytes.value));
    }

    /** `ReadBytesExt::read_u64::<LittleEndian>`. */
    method ReadU64() returns (res: Result<u64, Error>)
      requires Valid()
      modifies this
      ensures Valid()
      ensures WithPos(res, pos) == U64At(data, old(pos))
    {
      var bytes := ReadExact(8);
      if bytes.Err? {
        return Err(bytes.error);
      }
      ToFromLittleEndian(bytes.value);
      res := Ok(FromLittleEndian(bytes.value));
    }

    /** `Iterator::next` on `Read::bytes`: the next byte, or `None` at the
        end of the input. */
    method NextByte() returns (b: Option<byte>)
      requires Valid()
      modifies this
      ensures Valid()
      ensures b.None? <==> old(pos) == |data|
      ensures b.None? ==> pos == old(pos)
      ensures b.Some? ==> pos == old(pos) + 1 && b.value == data[old(pos)]
    {
      if pos < |data| {
        b := Some(data[pos]);
        pos := pos + 1;
      } else {
        b := None;
      }
    }
  }
}
