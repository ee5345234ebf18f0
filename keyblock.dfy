/** The keyblock container and the key records (keyfiles) inside it: their
    fields, how `load` decodes them from a file and how `serialize` encodes
    them, and the parse errors.

    Each decoder is specified by a function of the input bytes and a start
    position that returns the decoded value and the position after it
    (`KeyFileAt`, `HeaderAt`, `RecordsAt`, `KeyBlockAt`); each encoder by a
    function that returns the bytes written (`Encoding`). The methods, which
    advance a reader or append to a buffer step by step as the source does,
    are proved equal to these functions. */
module Keyblock {
  import opened Wrappers
  import opened Bytes
  import Io
  import opened Utils

  /** "banjo". */
  const MAGIC_NUMBER: seq<byte> := [0x62, 0x61, 0x6E, 0x6A, 0x6F]
  /** The only format version this implementation reads, and the one it writes. */
  const FORMAT_SPECIFIER: u16 := 1
  /** Size of a wrapped AES-256 secret, in bits. */
  const SECRET_SIZE: nat := 256
  /** Signature size as declared; the codec reads and compares it as
      `SIGNATURE_SIZE / 8` = 6 bytes. */
  const SIGNATURE_SIZE: nat := 50
  /** `usize as u64` keeps the count modulo this. */
  const U64_RANGE: nat := 0x1_0000_0000_0000_0000

  /** `ParseErrors`. */
  datatype ParseError =
    | KeyfileParseError(index: u64, cause: ParseError)
    | IOError(error: Io.Error)
    | UnexpectedEof
    | InvalidMagicNumber
    | UnknownFormatSpecifier

  /** `impl From<io::Error> for ParseErrors`: end of input gets its own
      error, every other I/O error is wrapped. */
  function FromIoError(error: Io.Error): (r: ParseError)
    ensures r == UnexpectedEof <==> error.kind == Io.ErrorKind.UnexpectedEof
    ensures r != UnexpectedEof ==> r == IOError(error)
  {
    match error.kind
    case UnexpectedEof => UnexpectedEof
    case Other => IOError(error)
  }

  /** The `?` operator applied to an I/O result in a function that returns
      `ParseErrors`. */
  function Lift<T>(r: Result<T, Io.Error>): (p: Result<T, ParseError>)
    ensures p.Ok? <==> r.Ok?
    ensures p.Ok? ==> p.value == r.value
    ensures p.Err? ==> p.error == FromIoError(r.error)
  {
    match r
    case Ok(v) => Ok(v)
    case Err(e) => Err(FromIoError(e))
  }

  /** One key record. */
  datatype KeyFile = KeyFile(
    flags: u64,
    secret: seq<byte>,
    uid: u16,
    path: string,
    name: string,
    description: string,
    length: u64,
    content: seq<byte>)
  {
    /** The record is one that `load` can produce and that survives a
        serialize/load round trip: a 32-byte secret, ASCII texts without NUL,
        and `length / 8` content bytes. */
    predicate Encodable() {
      HeadEncodable() && |content| == length / 8
    }

    /** The fields before the content are ones `load` can return: a 32-byte
        secret and ASCII texts without NUL. */
    predicate HeadEncodable() {
      |secret| == SECRET_SIZE / 8 && IsCString(path) && IsCString(name) && IsCString(description)
    }

    /** The bytes `serialize` writes before the content: the flags open it,
        the length closes it, and each text takes its UTF-8 bytes and a
        terminator. */
    function HeadEncoding(): (r: seq<byte>)
      ensures |r| >= 8 + |secret| + 2 + 3 + 8
    {
      LittleEndian(flags, 8) + secret + LittleEndian(uid, 2)
      + Utf8(path) + [0] + Utf8(name) + [0] + Utf8(description) + [0]
      + LittleEndian(length, 8)
    }

    /** The bytes `serialize` writes: the head, then the content with no
        length prefix of its own, so the record's size is the sum of its
        fields' sizes. */
    function Encoding(): (r: seq<byte>)
      ensures |r| >= 8 + |secret| + 2 + 3 + 8 + |content|
    {
      HeadEncoding() + content
    }

    /** `KeyFile::load`: reads the fields in wire order from the reader. */
    static method Load(reader: Io.Reader) returns (res: Result<KeyFile, ParseError>)
      requires reader.Valid()
      modifies reader
      ensures reader.Valid()
      ensures Io.WithPos(res, reader.pos) == KeyFileAt(reader.data, old(reader.pos))
    {
      var flags := reader.ReadU64();
      if flags.Err? {
        return Err(FromIoError(flags.error));
      }
      var secret := reader.ReadExact(SECRET_SIZE / 8);
      if secret.Err? {
        return Err(FromIoError(secret.error));
      }
      var uid := reader.ReadU16();
      if uid.Err? {
        return Err(FromIoError(uid.error));
      }
      var path := ReadNullString(reader);
      var name := ReadNullString(reader);
      var description := ReadNullString(reader);
      var length := reader.ReadU64();
      if length.Err? {
        return Err(FromIoError(length.error));
      }
      var content := reader.ReadExact(length.value / 8);
      if content.Err? {
        return Err(FromIoError(content.error));
      }
      res := Ok(KeyFile(flags.value, secret.value, uid.value, path, name, description,
                        length.value, content.value));
    }

    /** `KeyFile::serialize`: appends the fields in wire order to a buffer. */
    method Serialize() returns (buffer: seq<byte>)
      ensures buffer == Encoding()
    {
      hide LittleEndian, Utf8;
      buffer := [];
      buffer := buffer + LittleEndian(flags, 8);
      assert buffer == LittleEndian(flags, 8);
      buffer := buffer + secret;
      buffer := buffer + LittleEndian(uid, 2);
      buffer := buffer + Utf8(path) + [0];
      buffer := buffer + Utf8(name) + [0];
      buffer := buffer + Utf8(description) + [0];
      buffer := buffer + LittleEndian(length, 8);
      buffer := buffer + content;
    }
  }

  /** What `KeyFile::load` returns, and where it leaves the reader, when the
      reader stands at `pos` of `data`: flags, secret and uid, then the rest
      of the record. */
  function KeyFileAt(data: seq<byte>, pos: nat): (r: Result<Io.Parsed<KeyFile>, ParseError>)
    requires pos <= |data|
    ensures r.Ok? ==> pos < r.value.next <= |data|
    ensures r.Ok? ==> |r.value.value.secret| == SECRET_SIZE / 8
    ensures r.Ok? ==> |r.value.value.content| == r.value.value.length / 8
    ensures r.Err? ==> r.error == UnexpectedEof
  {
    var flags :- Lift(Io.U64At(data, pos));
    var secret :- Lift(Io.ExactAt(data, flags.next, SECRET_SIZE / 8));
    var uid :- Lift(Io.U16At(data, secret.next));
    KeyFileTextsAt(data, uid.next, flags.value, secret.value, uid.value)
  }

  /** The rest of `KeyFile::load` from `pos`, after the flags, secret and
      uid: path, name and description, then the length and the content. */
  function KeyFileTextsAt(data: seq<byte>, pos: nat, flags: u64, secret: seq<byte>, uid: u16)
    : (r: Result<Io.Parsed<KeyFile>, ParseError>)
    requires pos <= |data|
    ensures r.Ok? ==> pos < r.value.next <= |data|
    ensures r.Ok? ==> r.value.value.secret == secret
    ensures r.Ok? ==> |r.value.value.content| == r.value.value.length / 8
    ensures r.Err? ==> r.error == UnexpectedEof
  {
    var path := NullStringAt(data, pos);
    var name := NullStringAt(data, path.next);
    var description := NullStringAt(data, name.next);
    KeyFileContentAt(data, description.next, flags, secret, uid, path.value, name.value,
                     description.value)
  }

  /** The end of `KeyFile::load` from `pos`: the length, then `length / 8`
      content bytes. */
  function KeyFileContentAt(data: seq<byte>, pos: nat, flags: u64, secret: seq<byte>, uid: u16,
                            path: string, name: string, description: string)
    : (r: Result<Io.Parsed<KeyFile>, ParseError>)
    requires pos <= |data|
    ensures r.Ok? ==> pos < r.value.next <= |data|
    ensures r.Ok? ==> r.value.value.secret == secret
    ensures r.Ok? ==> |r.value.value.content| == r.value.value.length / 8
    ensures r.Err? ==> r.error == UnexpectedEof
  {
    var length :- Lift(Io.U64At(data, pos));
    var content :- Lift(Io.ExactAt(data, length.next, length.value / 8));
    Ok(Io.Parsed(KeyFile(flags, secret, uid, path, name, description, length.value, content.value),
                 content.next))
  }

  /** What `KeyBlock::load` reads before the keyfiles. */
  datatype Header = Header(
    formatSpecifier: u16,
    flags: u64,
    secret: seq<byte>,
    uid: u16,
    name: string,
    description: string,
    count: u64)

  /** The fields `KeyBlock::load` reads before the keyfiles, and the position
      after them: the magic number is checked first, then the format
      specifier, and only then are the other fields read. */
  function HeaderAt(data: seq<byte>): (r: Result<Io.Parsed<Header>, ParseError>)
    ensures r.Ok? ==> |data| >= |MAGIC_NUMBER| && data[..|MAGIC_NUMBER|] == MAGIC_NUMBER
    ensures r.Ok? ==> |data| >= |MAGIC_NUMBER| + 2
                      && data[|MAGIC_NUMBER|..|MAGIC_NUMBER| + 2] == LittleEndian(FORMAT_SPECIFIER, 2)
    ensures r.Ok? ==> r.value.value.formatSpecifier == FORMAT_SPECIFIER
    ensures r.Ok? ==> |r.value.value.secret| == SECRET_SIZE / 8
    ensures r.Ok? ==> r.value.next <= |data|
    ensures r.Err? ==> r.error.InvalidMagicNumber? || r.error.UnknownFormatSpecifier? || r.error.UnexpectedEof?
  {
    var magicNumber := Io.ReadAt(data, 0, |MAGIC_NUMBER|);
    if |magicNumber.value| < |MAGIC_NUMBER| then Err(InvalidMagicNumber)
    else if !CompareBuffers(magicNumber.value, MAGIC_NUMBER) then Err(InvalidMagicNumber)
    else
      var formatSpecifier :- Lift(Io.U16At(data, magicNumber.next));
      if formatSpecifier.value != FORMAT_SPECIFIER then Err(UnknownFormatSpecifier)
      else
        ToFromLittleEndian(data[|MAGIC_NUMBER|..|MAGIC_NUMBER| + 2]);
        HeaderFieldsAt(data, formatSpecifier.next)
  }

  /** The header fields after the format specifier, read from `pos`: flags,
      secret and uid, then the rest. */
  function HeaderFieldsAt(data: seq<byte>, pos: nat): (r: Result<Io.Parsed<Header>, ParseError>)
    requires pos <= |data|
    ensures r.Ok? ==> r.value.value.formatSpecifier == FORMAT_SPECIFIER
    ensures r.Ok? ==> |r.value.value.secret| == SECRET_SIZE / 8
    ensures r.Ok? ==> pos <= r.value.next <= |data|
    ensures r.Err? ==> r.error == UnexpectedEof
  {
    var flags :- Lift(Io.U64At(data, pos));
    var secret :- Lift(Io.ExactAt(data, flags.next, SECRET_SIZE / 8));
    var uid :- Lift(Io.U16At(data, secret.next));
    HeaderTextsAt(data, uid.next, flags.value, secret.value, uid.value)
  }

  /** The end of the header from `pos`: name, description and the number of
      keyfiles. */
  function HeaderTextsAt(data: seq<byte>, pos: nat, flags: u64, secret: seq<byte>, uid: u16)
    : (r: Result<Io.Parsed<Header>, ParseError>)
    requires pos <= |data|
    ensures r.Ok? ==> r.value.value.formatSpecifier == FORMAT_SPECIFIER
    ensures r.Ok? ==> r.value.value.secret == secret
    ensures r.Ok? ==> pos <= r.value.next <= |data|
    ensures r.Err? ==> r.error == UnexpectedEof
  {
    var name := NullStringAt(data, pos);
    var description := NullStringAt(data, name.next);
    var count :- Lift(Io.U64At(data, description.next));
    Ok(Io.Parsed(Header(FORMAT_SPECIFIER, flags, secret, uid, name.value, description.value,
                        count.value),
                 count.next))
  }

  /** The part of `KeyBlock::load` that reads the fields before the
      keyfiles, from a reader at the start of the file. */
  method ReadHeader(reader: Io.Reader) returns (res: Result<Header, ParseError>)
    requires reader.Valid() && reader.pos == 0
    modifies reader
    ensures reader.Valid()
    ensures Io.WithPos(res, reader.pos) == HeaderAt(reader.data)
  {
    var magicNumber := reader.Read(|MAGIC_NUMBER|);
    if |magicNumber| < |MAGIC_NUMBER| {
      return Err(InvalidMagicNumber);
    }
    if !CompareBuffers(magicNumber, MAGIC_NUMBER) {
      return Err(InvalidMagicNumber);
    }
    var formatSpecifier := reader.ReadU16();
    if formatSpecifier.Err? {
      return Err(FromIoError(formatSpecifier.error));
    }
    if formatSpecifier.value != FORMAT_SPECIFIER {
      return Err(UnknownFormatSpecifier);
    }
    var flags := reader.ReadU64();
    if flags.Err? {
      return Err(FromIoError(flags.error));
    }
    var secret := reader.ReadExact(SECRET_SIZE / 8);
    if secret.Err? {
      return Err(FromIoError(secret.error));
    }
    var uid := reader.ReadU16();
    if uid.Err? {
      return Err(FromIoError(uid.error));
    }
    var name := ReadNullString(reader);
    var description := ReadNullString(reader);
    var keyfileNumber := reader.ReadU64();
    if keyfileNumber.Err? {
      return Err(FromIoError(keyfileNumber.error));
    }
    res := Ok(Header(formatSpecifier.value, flags.value, secret.value, uid.value, name,
                     description, keyfileNumber.value));
  }

  /** The first `n` keyfiles read from `pos`, in file order; the first one
      that fails stops the loop, and its zero-based index goes with its
      error. */
  function RecordsAt(data: seq<byte>, pos: nat, n: u64): (r: Result<Io.Parsed<seq<KeyFile>>, ParseError>)
    requires pos <= |data|
    ensures r.Ok? ==> |r.value.value| == n && pos <= r.value.next <= |data|
    ensures r.Err? ==> r.error.KeyfileParseError? && r.error.index < n
    ensures r.Err? ==> r.error.cause == UnexpectedEof
  {
    if n == 0 then Ok(Io.Parsed([], pos))
    else
      var prior :- RecordsAt(data, pos, n - 1);
      match KeyFileAt(data, prior.next)
      case Err(e) => Err(KeyfileParseError(n - 1, e))
      case Ok(record) => Ok(Io.Parsed(prior.value + [record.value], record.next))
  }

  /** Once a keyfile has failed, reading more keyfiles fails the same way. */
  lemma {:induction false} RecordsErrorPersists(data: seq<byte>, pos: nat, i: u64, n: u64)
    requires pos <= |data| && i <= n
    requires RecordsAt(data, pos, i).Err?
    ensures RecordsAt(data, pos, n) == RecordsAt(data, pos, i)
    decreases n
  {
    hide KeyFileAt;
    if i < n {
      RecordsErrorPersists(data, pos, i, n - 1);
    }
  }

  /** The mapping built by inserting each record under its path, in order:
      a later record replaces an earlier one with the same path. */
  function KeysOf(records: seq<KeyFile>): (keys: map<string, KeyFile>)
    ensures forall p :: p in keys ==> keys[p].path == p
    ensures forall i :: 0 <= i < |records| ==> records[i].path in keys
    ensures forall p :: p in keys ==> keys[p] in records
  {
    if records == [] then map[]
    else
      var last := records[|records| - 1];
      KeysOf(records[..|records| - 1])[last.path := last]
  }

  /** Reading one more keyfile after `i` of them: its result is appended,
      or its failure is reported with index `i`. */
  lemma RecordsStep(data: seq<byte>, start: nat, i: u64, records: seq<KeyFile>, pos: nat)
    requires start <= |data| && pos <= |data| && i + 1 < U64_RANGE
    requires RecordsAt(data, start, i) == Ok(Io.Parsed(records, pos))
    ensures RecordsAt(data, start, i + 1)
            == match KeyFileAt(data, pos)
               case Err(e) => Err(KeyfileParseError(i, e))
               case Ok(record) => Ok(Io.Parsed(records + [record.value], record.next))
  {
    hide KeyFileAt;
  }

  /** No keyfile read yet: no records, an empty mapping. */
  lemma RecordsStart(data: seq<byte>, start: nat)
    requires start <= |data|
    ensures RecordsAt(data, start, 0) == Ok(Io.Parsed([], start))
    ensures KeysOf([]) == map[]
  {
  }

  /** Inserting one more record into the mapping. */
  lemma KeysOfStep(records: seq<KeyFile>, key: KeyFile)
    ensures KeysOf(records + [key]) == KeysOf(records)[key.path := key]
  {
    assert (records + [key])[..|records|] == records;
  }

  /** The mapping `KeyBlock::load` builds from `count` keyfiles read from
      `pos`, and the position after them. */
  function KeyfilesAt(data: seq<byte>, pos: nat, count: u64)
    : (r: Result<Io.Parsed<map<string, KeyFile>>, ParseError>)
    requires pos <= |data|
    ensures r.Ok? <==> RecordsAt(data, pos, count).Ok?
    ensures r.Ok? ==> r.value == Io.Parsed(KeysOf(RecordsAt(data, pos, count).value.value),
                                           RecordsAt(data, pos, count).value.next)
    ensures r.Err? ==> r.error == RecordsAt(data, pos, count).error
  {
    var records :- RecordsAt(data, pos, count);
    Ok(Io.Parsed(KeysOf(records.value), records.next))
  }

  /** The loop of `KeyBlock::load` that reads `count` keyfiles from the
      reader and inserts each under its path; the first failure ends the
      load with the zero-based index of the keyfile. */
  method ReadKeyfiles(reader: Io.Reader, count: u64) returns (res: Result<map<string, KeyFile>, ParseError>)
    requires reader.Valid()
    modifies reader
    ensures reader.Valid()
    ensures Io.WithPos(res, reader.pos) == KeyfilesAt(reader.data, old(reader.pos), count)
  {
    hide KeyFileAt, RecordsAt, KeysOf, KeyfilesAt, Io.WithPos;
    ghost var start := reader.pos;
    ghost var data := reader.data;
    RecordsStart(data, start);
    var keys: map<string, KeyFile> := map[];
    ghost var records: seq<KeyFile> := [];
    for i := 0 to count
      invariant reader.Valid() && reader.data == data
      invariant RecordsAt(data, start, i) == Ok(Io.Parsed(records, reader.pos))
      invariant keys == KeysOf(records)
    {
      RecordsStep(data, start, i, records, reader.pos);
      var keyfile := KeyFile.Load(reader);
      if keyfile.Err? {
        RecordsErrorPersists(data, start, i + 1, count);
        return Err(KeyfileParseError(i, keyfile.error));
      }
      var key := keyfile.value;
      KeysOfStep(records, key);
      keys := keys[key.path := key];
      records := records + [key];
    }
    res := Ok(keys);
  }

  /** What `KeyBlock::load` returns for a file whose bytes are `data`. */
  function KeyBlockAt<K>(data: seq<byte>, rootPubkey: K): (r: Result<KeyBlock<K>, ParseError>)
    ensures r.Ok? ==> r.value.rootPubkey == rootPubkey
    ensures r.Ok? ==> r.value.formatSpecifier == FORMAT_SPECIFIER
    ensures r.Ok? ==> |r.value.secret| == SECRET_SIZE / 8
    ensures r.Ok? ==> |r.value.signature| == SIGNATURE_SIZE / 8
    ensures r.Ok? ==> forall p :: p in r.value.keys ==> r.value.keys[p].path == p
    ensures r.Ok? ==> forall p :: p in r.value.keys ==>
                        |r.value.keys[p].content| == r.value.keys[p].length / 8
    ensures r.Err? ==> || r.error.InvalidMagicNumber? || r.error.UnknownFormatSpecifier?
                       || r.error.UnexpectedEof?
                       || (r.error.KeyfileParseError? && r.error.cause == UnexpectedEof)
  {
    var header :- HeaderAt(data);
    var records :- RecordsAt(data, header.next, header.value.count);
    var signature :- Lift(Io.ExactAt(data, records.next, SIGNATURE_SIZE / 8));
    var h := header.value;
    assert forall k :: k in records.value ==> |k.content| == k.length / 8 by {
      RecordsWellFormed(data, header.next, h.count);
    }
    Ok(KeyBlock(rootPubkey, h.formatSpecifier, h.flags, h.secret, h.uid, h.name,
                h.description, KeysOf(records.value), signature.value))
  }

  /** Every record that `RecordsAt` returns carries `length / 8` content
      bytes. */
  lemma {:induction false} RecordsWellFormed(data: seq<byte>, pos: nat, n: u64)
    requires pos <= |data|
    ensures RecordsAt(data, pos, n).Ok? ==>
              forall k :: k in RecordsAt(data, pos, n).value.value ==> |k.content| == k.length / 8
    decreases n
  {
    hide KeyFileAt;
    if n > 0 {
      RecordsWellFormed(data, pos, n - 1);
    }
  }

  /** The keyfiles in the order `serialize` writes them. */
  function RecordsEncoding(records: seq<KeyFile>): (r: seq<byte>)
    ensures |r| >= 21 * |records|
    ensures r == [] <==> records == []
  {
    if records == [] then []
    else RecordsEncoding(records[..|records| - 1]) + records[|records| - 1].Encoding()
  }

  /** `paths` lists every key of `keys` exactly once: one possible iteration
      order of the mapping. */
  ghost predicate IsEnumeration(paths: seq<string>, keys: set<string>) {
    && (forall i, j :: 0 <= i < j < |paths| ==> paths[i] != paths[j])
    && (forall p :: p in keys <==> p in paths)
  }

  /** The records of `keys` visited in the order `paths`. */
  function Enumerated(keys: map<string, KeyFile>, paths: seq<string>): (r: seq<KeyFile>)
    requires forall i :: 0 <= i < |paths| ==> paths[i] in keys
    ensures |r| == |paths|
    ensures forall i :: 0 <= i < |paths| ==> r[i] == keys[paths[i]]
  {
    seq(|paths|, i requires 0 <= i < |paths| => keys[paths[i]])
  }

  /** Visiting one more path appends that path's record. */
  lemma EnumeratedSnoc(keys: map<string, KeyFile>, paths: seq<string>, path: string)
    requires forall i :: 0 <= i < |paths| ==> paths[i] in keys
    requires path in keys
    ensures RecordsEncoding(Enumerated(keys, paths + [path]))
            == RecordsEncoding(Enumerated(keys, paths)) + keys[path].Encoding()
  {
    var records := Enumerated(keys, paths + [path]);
    assert records[..|records| - 1] == Enumerated(keys, paths);
  }

  /** A path not yet listed extends an enumeration of the paths done. */
  lemma EnumerationSnoc(paths: seq<string>, done: set<string>, path: string)
    requires IsEnumeration(paths, done) && path !in done
    ensures IsEnumeration(paths + [path], done + {path})
  {
  }

  /** The keyblock. `K` stands for the root public key, which the codec
      only stores. */
  datatype KeyBlock<K> = KeyBlock(
    rootPubkey: K,
    formatSpecifier: u16,
    flags: u64,
    secret: seq<byte>,
    uid: u16,
    name: string,
    description: string,
    keys: map<string, KeyFile>,
    signature: seq<byte>)
  {
    /** The block survives a serialize/load round trip: a 32-byte secret,
        ASCII texts without NUL, a 6-byte signature, and records that are
        themselves encodable and filed under their own path. */
    predicate Encodable() {
      && |secret| == SECRET_SIZE / 8
      && IsCString(name) && IsCString(description)
      && |signature| == SIGNATURE_SIZE / 8
      && |keys| < U64_RANGE
      && forall p :: p in keys ==> keys[p].path == p && keys[p].Encodable()
    }

    /** The bytes `serialize` writes before the keyfiles. The format
        specifier written is the constant, not this block's field. */
    function HeaderEncoding(): (r: seq<byte>)
      ensures |r| >= |MAGIC_NUMBER| + 2 + 8 + |secret| + 2 + 2 + 8
      ensures r[..|MAGIC_NUMBER|] == MAGIC_NUMBER
      ensures r[|MAGIC_NUMBER|..|MAGIC_NUMBER| + 2] == LittleEndian(FORMAT_SPECIFIER, 2)
    {
      MAGIC_NUMBER + LittleEndian(FORMAT_SPECIFIER, 2) + LittleEndian(flags, 8) + secret
      + LittleEndian(uid, 2) + Utf8(name) + [0] + Utf8(description) + [0]
      + LittleEndian(|keys| % U64_RANGE, 8)
    }

    /** The bytes `serialize` writes when the mapping yields its records in
        the order `paths`. */
    function Encoding(paths: seq<string>): (r: seq<byte>)
      requires forall i :: 0 <= i < |paths| ==> paths[i] in keys
      ensures |r| >= |HeaderEncoding()| + 21 * |paths| + |signature|
      ensures r[..|MAGIC_NUMBER|] == MAGIC_NUMBER
      ensures r[|r| - |signature|..] == signature
    {
      HeaderEncoding() + RecordsEncoding(Enumerated(keys, paths)) + signature
    }

    /** `KeyBlock::load`: opens a reader on the file, checks the magic number
        and the format specifier, reads the header fields, inserts
        `keyfile_number` records into the mapping and reads the signature.
        The signature is not checked. */
    static method Load(file: seq<byte>, rootPubkey: K) returns (res: Result<KeyBlock<K>, ParseError>)
      ensures res == KeyBlockAt(file, rootPubkey)
    {
      hide KeyFileAt, HeaderAt, RecordsAt, KeysOf, Io.ExactAt;
      var reader := new Io.Reader(file);
      var header := ReadHeader(reader);
      if header.Err? {
        return Err(header.error);
      }
      var h := header.value;

      var keys := ReadKeyfiles(reader, h.count);
      if keys.Err? {
        return Err(keys.error);
      }

      var signature := reader.ReadExact(SIGNATURE_SIZE / 8);
      if signature.Err? {
        return Err(FromIoError(signature.error));
      }
      res := Ok(KeyBlock(rootPubkey, h.formatSpecifier, h.flags, h.secret, h.uid, h.name,
                         h.description, keys.value, signature.value));
    }

    /** The first part of `KeyBlock::serialize`: the magic number, the
        format specifier (the constant, not this block's field), and the
        header fields in wire order. */
    method SerializeHeader() returns (buffer: seq<byte>)
      ensures buffer == HeaderEncoding()
    {
      hide LittleEndian, Utf8;
      buffer := [];
      buffer := buffer + MAGIC_NUMBER;
      assert buffer == MAGIC_NUMBER;
      buffer := buffer + LittleEndian(FORMAT_SPECIFIER, 2);
      buffer := buffer + LittleEndian(flags, 8);
      buffer := buffer + secret;
      buffer := buffer + LittleEndian(uid, 2);
      buffer := buffer + Utf8(name) + [0];
      buffer := buffer + Utf8(description) + [0];
      buffer := buffer + LittleEndian(|keys| % U64_RANGE, 8);
    }

    /** `KeyBlock::serialize`: appends the header, each record in the order
        the mapping yields them (any order: the model picks each next path
        arbitrarily among those left), and the signature. */
    method Serialize() returns (buffer: seq<byte>)
      ensures exists paths :: IsEnumeration(paths, keys.Keys) && buffer == Encoding(paths)
    {
      hide LittleEndian, Utf8, KeyFile.Encoding, HeaderEncoding, RecordsEncoding;
      buffer := SerializeHeader();

      var head := buffer;
      var paths: seq<string> := [];
      var remaining := keys.Keys;
      while remaining != {}
        invariant remaining <= keys.Keys
        invariant forall i :: 0 <= i < |paths| ==> paths[i] in keys
        invariant IsEnumeration(paths, keys.Keys - remaining)
        invariant buffer == head + RecordsEncoding(Enumerated(keys, paths))
        decreases remaining
      {
        hide Enumerated, IsEnumeration;
        var path :| path in remaining;
        var bytes := keys[path].Serialize();
        EnumeratedSnoc(keys, paths, path);
        EnumerationSnoc(paths, keys.Keys - remaining, path);
        assert keys.Keys - (remaining - {path}) == (keys.Keys - remaining) + {path};
        buffer := buffer + bytes;
        paths := paths + [path];
        remaining := remaining - {path};
      }

      buffer := buffer + signature;
      assert keys.Keys - remaining == keys.Keys;
    }
  }
}
