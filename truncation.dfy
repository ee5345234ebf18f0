/** Truncated input. Every read of the codec that succeeds on a prefix of a
    file returns the same as on the whole file, since it never looks past
    what it consumed; a string that runs to the end of the prefix leaves the
    next fixed-size read nothing to read. So a block cut short anywhere
    fails to load, and with which error is fixed by where it was cut. */
module KeyblockTruncation {
  import opened Wrappers
  import opened Bytes
  import Io
  import opened Utils
  import opened Keyblock
  import opened KeyblockLemmas

  /** `p` is `d` cut after `|p|` bytes. */
  predicate IsPrefix(p: seq<byte>, d: seq<byte>) {
    |p| <= |d| && p == d[..|p|]
  }

  /** `read_exact` within the prefix reads the same bytes from the whole
      input. */
  lemma ExactPrefix(p: seq<byte>, d: seq<byte>, pos: nat, n: nat)
    requires IsPrefix(p, d) && pos + n <= |p|
    ensures Io.ExactAt(d, pos, n) == Io.ExactAt(p, pos, n)
  {
    assert p[pos..pos + n] == d[pos..pos + n];
  }

  lemma U16Prefix(p: seq<byte>, d: seq<byte>, pos: nat)
    requires IsPrefix(p, d) && pos + 2 <= |p|
    ensures Io.U16At(d, pos) == Io.U16At(p, pos)
  {
    ExactPrefix(p, d, pos, 2);
  }

  lemma U64Prefix(p: seq<byte>, d: seq<byte>, pos: nat)
    requires IsPrefix(p, d) && pos + 8 <= |p|
    ensures Io.U64At(d, pos) == Io.U64At(p, pos)
  {
    ExactPrefix(p, d, pos, 8);
  }

  /** A NUL inside the prefix is the first NUL of the whole input too. */
  lemma {:induction false} NulIndexPrefix(p: seq<byte>, d: seq<byte>, pos: nat)
    requires IsPrefix(p, d) && pos <= |p| && NulIndex(p, pos) < |p|
    ensures NulIndex(d, pos) == NulIndex(p, pos)
    decreases |p| - pos
  {
    assert p[pos] == d[pos];
    if p[pos] != 0 {
      NulIndexPrefix(p, d, pos + 1);
    }
  }

  /** `read_null_string` that ends before the end of the prefix reads the
      same string, and stops at the same place, in the whole input. */
  lemma NullStringPrefix(p: seq<byte>, d: seq<byte>, pos: nat)
    requires IsPrefix(p, d) && pos <= |p|
    requires NullStringAt(p, pos).next < |p|
    ensures NullStringAt(d, pos) == NullStringAt(p, pos)
  {
    var end := NulIndex(p, pos);
    NulIndexPrefix(p, d, pos);
    assert d[pos..end] == p[pos..end];
  }

  lemma ContentPrefix(p: seq<byte>, d: seq<byte>, pos: nat, flags: u64, secret: seq<byte>, uid: u16,
                      path: string, name: string, description: string)
    requires IsPrefix(p, d) && pos <= |p|
    requires KeyFileContentAt(p, pos, flags, secret, uid, path, name, description).Ok?
    ensures KeyFileContentAt(d, pos, flags, secret, uid, path, name, description)
            == KeyFileContentAt(p, pos, flags, secret, uid, path, name, description)
  {
    hide Io.U64At, Io.ExactAt, IsPrefix;
    U64Prefix(p, d, pos);
    var length := Io.U64At(p, pos).value.value;
    ExactPrefix(p, d, pos + 8, length / 8);
  }

  lemma TextsPrefix(p: seq<byte>, d: seq<byte>, pos: nat, flags: u64, secret: seq<byte>, uid: u16)
    requires IsPrefix(p, d) && pos <= |p|
    requires KeyFileTextsAt(p, pos, flags, secret, uid).Ok?
    ensures KeyFileTextsAt(d, pos, flags, secret, uid) == KeyFileTextsAt(p, pos, flags, secret, uid)
  {
    hide NullStringAt, KeyFileContentAt, IsPrefix;
    var path := NullStringAt(p, pos);
    var name := NullStringAt(p, path.next);
    var description := NullStringAt(p, name.next);
    assert KeyFileContentAt(p, description.next, flags, secret, uid, path.value, name.value,
                            description.value).Ok?;
    NullStringPrefix(p, d, pos);
    NullStringPrefix(p, d, path.next);
    NullStringPrefix(p, d, name.next);
    ContentPrefix(p, d, description.next, flags, secret, uid, path.value, name.value,
                  description.value);
  }

  /** A keyfile that reads from the prefix reads the same from the whole
      input. */
  lemma KeyFilePrefix(p: seq<byte>, d: seq<byte>, pos: nat)
    requires IsPrefix(p, d) && pos <= |p|
    requires KeyFileAt(p, pos).Ok?
    ensures KeyFileAt(d, pos) == KeyFileAt(p, pos)
  {
    hide Io.U64At, Io.U16At, Io.ExactAt, KeyFileTextsAt, IsPrefix;
    U64Prefix(p, d, pos);
    ExactPrefix(p, d, pos + 8, SECRET_SIZE / 8);
    U16Prefix(p, d, pos + 8 + SECRET_SIZE / 8);
    TextsPrefix(p, d, pos + 8 + SECRET_SIZE / 8 + 2, Io.U64At(p, pos).value.value,
                Io.ExactAt(p, pos + 8, SECRET_SIZE / 8).value.value,
                Io.U16At(p, pos + 8 + SECRET_SIZE / 8).value.value);
  }

  /** Records that read from the prefix read the same from the whole
      input. */
  lemma {:induction false} RecordsPrefix(p: seq<byte>, d: seq<byte>, pos: nat, n: u64)
    requires IsPrefix(p, d) && pos <= |p|
    requires RecordsAt(p, pos, n).Ok?
    ensures RecordsAt(d, pos, n) == RecordsAt(p, pos, n)
    decreases n
  {
    hide KeyFileAt, IsPrefix;
    if n > 0 {
      RecordsPrefix(p, d, pos, n - 1);
      KeyFilePrefix(p, d, RecordsAt(p, pos, n - 1).value.next);
    }
  }

  lemma HeaderTextsPrefix(p: seq<byte>, d: seq<byte>, pos: nat, flags: u64, secret: seq<byte>, uid: u16)
    requires IsPrefix(p, d) && pos <= |p|
    requires HeaderTextsAt(p, pos, flags, secret, uid).Ok?
    ensures HeaderTextsAt(d, pos, flags, secret, uid) == HeaderTextsAt(p, pos, flags, secret, uid)
  {
    hide NullStringAt, Io.U64At, IsPrefix;
    var name := NullStringAt(p, pos);
    var description := NullStringAt(p, name.next);
    NullStringPrefix(p, d, pos);
    NullStringPrefix(p, d, name.next);
    U64Prefix(p, d, description.next);
  }

  lemma HeaderFieldsPrefix(p: seq<byte>, d: seq<byte>, pos: nat)
    requires IsPrefix(p, d) && pos <= |p|
    requires HeaderFieldsAt(p, pos).Ok?
    ensures HeaderFieldsAt(d, pos) == HeaderFieldsAt(p, pos)
  {
    hide Io.U64At, Io.U16At, Io.ExactAt, HeaderTextsAt, IsPrefix;
    U64Prefix(p, d, pos);
    ExactPrefix(p, d, pos + 8, SECRET_SIZE / 8);
    U16Prefix(p, d, pos + 8 + SECRET_SIZE / 8);
    HeaderTextsPrefix(p, d, pos + 8 + SECRET_SIZE / 8 + 2, Io.U64At(p, pos).value.value,
                      Io.ExactAt(p, pos + 8, SECRET_SIZE / 8).value.value,
                      Io.U16At(p, pos + 8 + SECRET_SIZE / 8).value.value);
  }

  /** A header that reads from the prefix reads the same from the whole
      input. */
  lemma HeaderPrefix(p: seq<byte>, d: seq<byte>)
    requires IsPrefix(p, d)
    requires HeaderAt(p).Ok?
    ensures HeaderAt(d) == HeaderAt(p)
  {
    hide Io.U16At, HeaderFieldsAt;
    assert p[..|MAGIC_NUMBER|] == d[..|MAGIC_NUMBER|];
    U16Prefix(p, d, |MAGIC_NUMBER|);
    HeaderFieldsPrefix(p, d, |MAGIC_NUMBER| + 2);
  }

  /** Where the parts of a serialized block lie: the magic number and the
      format specifier open it, the header reads up to `hn`, the records
      read from there up to `rn`, and the signature fills the rest. */
  lemma EncodingLayout<K>(b: KeyBlock<K>, paths: seq<string>) returns (hn: nat, rn: nat)
    requires b.Encodable() && IsEnumeration(paths, b.keys.Keys)
    ensures forall i :: 0 <= i < |paths| ==> paths[i] in b.keys
    ensures var d := b.Encoding(paths);
      && |MAGIC_NUMBER| + 2 <= |d| && d[..|MAGIC_NUMBER|] == MAGIC_NUMBER
      && d[|MAGIC_NUMBER|..|MAGIC_NUMBER| + 2] == LittleEndian(FORMAT_SPECIFIER, 2)
      && HeaderAt(d).Ok? && HeaderAt(d).value.next == hn <= |d|
      && RecordsAt(d, hn, HeaderAt(d).value.value.count) == Ok(Io.Parsed(Enumerated(b.keys, paths), rn))
      && rn + SIGNATURE_SIZE / 8 == |d|
  {
    hide HeaderAt, RecordsAt, Io.ExactAt, KeyBlock.HeaderEncoding, RecordsEncoding, Enumerated, KeysOf;
    hide IsEnumeration, LittleEndian, Utf8, KeyFile.Encodable, KeyBlockAt, KeyFileAt;
    var ks;
    ks, hn, rn := HeaderRecordsFrom(b, paths, b.signature);
    var he := b.HeaderEncoding();
    var d := b.Encoding(paths);
    assert d == he + RecordsEncoding(ks) + b.signature;
    assert d[|MAGIC_NUMBER|..|MAGIC_NUMBER| + 2] == he[|MAGIC_NUMBER|..|MAGIC_NUMBER| + 2];
  }

  /** A serialized block cut short anywhere fails to load: with
      `InvalidMagicNumber` when fewer than five bytes are left, and
      otherwise with end of input, either directly or as the cause of a
      `KeyfileParseError`. */
  lemma TruncatedFails<K>(b: KeyBlock<K>, paths: seq<string>, m: nat)
    requires b.Encodable() && IsEnumeration(paths, b.keys.Keys)
    requires m < |b.Encoding(paths)|
    ensures KeyBlockAt(b.Encoding(paths)[..m], b.rootPubkey).Err?
    ensures m < |MAGIC_NUMBER| ==> KeyBlockAt(b.Encoding(paths)[..m], b.rootPubkey).error == InvalidMagicNumber
    ensures m >= |MAGIC_NUMBER| ==>
              || KeyBlockAt(b.Encoding(paths)[..m], b.rootPubkey).error == UnexpectedEof
              || (&& KeyBlockAt(b.Encoding(paths)[..m], b.rootPubkey).error.KeyfileParseError?
                  && KeyBlockAt(b.Encoding(paths)[..m], b.rootPubkey).error.cause == UnexpectedEof)
  {
    hide HeaderAt, RecordsAt, Io.ExactAt, KeyBlock.HeaderEncoding, RecordsEncoding, Enumerated, KeysOf;
    hide IsEnumeration, LittleEndian, Utf8, KeyFile.Encodable, KeyBlock.Encoding, KeyFileAt;
    var hn, rn := EncodingLayout(b, paths);
    var d := b.Encoding(paths);
    var p := d[..m];
    assert IsPrefix(p, d);
    KeyBlockPreamble(p, b.rootPubkey);
    if m >= |MAGIC_NUMBER| {
      assert p[..|MAGIC_NUMBER|] == d[..|MAGIC_NUMBER|];
      if m >= |MAGIC_NUMBER| + 2 {
        assert p[|MAGIC_NUMBER|..|MAGIC_NUMBER| + 2] == d[|MAGIC_NUMBER|..|MAGIC_NUMBER| + 2];
      }
    }
    NotLoaded(p, d, b.rootPubkey, hn, rn);
  }

  /** A prefix that stops short of the signature's end cannot load, since
      the reads would find the same header and records as in the whole
      input and then the signature past its end. */
  lemma NotLoaded<K>(p: seq<byte>, d: seq<byte>, rootPubkey: K, hn: nat, rn: nat)
    requires IsPrefix(p, d) && |p| < |d|
    requires HeaderAt(d).Ok? && HeaderAt(d).value.next == hn <= |d|
    requires RecordsAt(d, hn, HeaderAt(d).value.value.count).Ok?
    requires RecordsAt(d, hn, HeaderAt(d).value.value.count).value.next == rn
    requires rn + SIGNATURE_SIZE / 8 == |d|
    ensures KeyBlockAt(p, rootPubkey).Err?
  {
    hide RecordsAt, KeyFileAt, KeysOf, IsPrefix;
    if HeaderAt(p).Ok? {
      HeaderPrefix(p, d);
      var h := HeaderAt(p).value;
      if RecordsAt(p, h.next, h.value.count).Ok? {
        RecordsPrefix(p, d, h.next, h.value.count);
      }
    }
  }
}
