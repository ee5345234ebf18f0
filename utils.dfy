/** The two helpers the codec depends on: buffer comparison and reading a
    NUL-terminated string from a reader. */
module Utils {
  import opened Wrappers
  import opened Bytes
  import opened Io

  /** How many positions of the zipped buffers hold equal bytes:
      `a.iter().zip(b.iter()).filter(|(a, b)| a == b).count()`. */
  function MatchCount(a: seq<byte>, b: seq<byte>): (r: nat)
    ensures r <= |a| && r <= |b|
    ensures r == |a| && r == |b| <==> a == b
  {
    if a == [] || b == [] then 0
    else (if a[0] == b[0] then 1 else 0) + MatchCount(a[1..], b[1..])
  }

  /** `compare_buffers`: every zipped pair matches and neither buffer is
      longer than the other, which is plain equality. */
  function CompareBuffers(a: seq<byte>, b: seq<byte>): (r: bool)
    ensures r <==> a == b
  {
    var matching := MatchCount(a, b);
    matching == |a| && matching == |b|
  }

  /** The position of the first NUL at or after `pos`, or the end of the
      input when there is none. */
  function NulIndex(data: seq<byte>, pos: nat): (r: nat)
    requires pos <= |data|
    ensures pos <= r <= |data|
    ensures r < |data| ==> data[r] == 0
    ensures forall i :: pos <= i < r ==> data[i] != 0
    decreases |data| - pos
  {
    if pos == |data| || data[pos] == 0 then pos else NulIndex(data, pos + 1)
  }

  /** What `read_null_string` returns when the reader stands at `pos`, and
      where it leaves the reader: the bytes up to the first NUL (consumed
      with it) or up to the end of the input, one character per byte. */
  function NullStringAt(data: seq<byte>, pos: nat): (r: Parsed<string>)
    requires pos <= |data|
    ensures pos <= r.next <= |data|
  {
    var end := NulIndex(data, pos);
    Parsed(Latin1(data[pos..end]), if end < |data| then end + 1 else end)
  }

  /** The string read is the bytes from `pos`, one character each, none of
      them NUL; the reader ends just past a NUL that follows them, or at the
      end of the input when none does. */
  lemma NullStringShape(data: seq<byte>, pos: nat)
    requires pos <= |data|
    ensures var r := NullStringAt(data, pos);
      && pos + |r.value| <= r.next
      && r.value == Latin1(data[pos..pos + |r.value|]) && 0 !in data[pos..pos + |r.value|]
      && ((r.next == pos + |r.value| + 1 && data[r.next - 1] == 0)
          || r.next == pos + |r.value| == |data|)
  {
  }

  /** `read_null_string`: pulls bytes one at a time until a NUL or the end
      of the input; it never fails. */
  method ReadNullString(reader: Reader) returns (s: string)
    requires reader.Valid()
    modifies reader
    ensures reader.Valid()
    ensures Parsed(s, reader.pos) == NullStringAt(reader.data, old(reader.pos))
  {
    ghost var start := reader.pos;
    s := [];
    while true
      invariant reader.Valid() && start <= reader.pos <= NulIndex(reader.data, start)
      invariant s == Latin1(reader.data[start..reader.pos])
      decreases |reader.data| - reader.pos
    {
      var next := reader.NextByte();
      if next.None? || next.value == 0 {
        break;
      }
      assert reader.data[start..reader.pos] == reader.data[start..reader.pos - 1] + [next.value];
      s := s + [next.value as char];
    }
  }

  /** A NUL-free run of bytes followed by a NUL reads back as itself, and
      exactly the run and its terminator are consumed. */
  lemma NullStringTerminated(data: seq<byte>, pos: nat, s: seq<byte>, rest: seq<byte>)
    requires pos <= |data| && data[pos..] == s + [0] + rest
    requires 0 !in s
    ensures NullStringAt(data, pos) == Parsed(Latin1(s), pos + |s| + 1)
    ensures data[pos + |s| + 1..] == rest
  {
    assert forall i :: pos <= i < pos + |s| ==> data[i] == data[pos..][i - pos] == s[i - pos];
    assert data[pos + |s|] == data[pos..][|s|] == 0;
    var end := NulIndex(data, pos);
    assert end == pos + |s|;
    assert data[pos..end] == data[pos..][..|s|] == s;
    assert data[pos + |s| + 1..] == data[pos..][|s| + 1..];
  }

  /** With no NUL left in the input, everything that remains is read as the
      string and the reader ends at the end of the input. */
  lemma NullStringUnterminated(data: seq<byte>, pos: nat)
    requires pos <= |data|
    requires forall i :: pos <= i < |data| ==> data[i] != 0
    ensures NullStringAt(data, pos) == Parsed(Latin1(data[pos..]), |data|)
  {
    assert NulIndex(data, pos) == |data|;
    assert data[pos..|data|] == data[pos..];
  }

  /** Writing a string's bytes and a NUL, as the serializers do, and reading
      it back gives the same string when it is ASCII without NUL. */
  lemma NullStringFraming(data: seq<byte>, pos: nat, s: string, rest: seq<byte>)
    requires pos <= |data| && data[pos..] == Utf8(s) + [0] + rest
    requires IsCString(s)
    ensures NullStringAt(data, pos) == Parsed(s, pos + |Utf8(s)| + 1)
    ensures data[pos + |Utf8(s)| + 1..] == rest
  {
    CStringBytes(s);
    NullStringTerminated(data, pos, Utf8(s), rest);
  }
}
