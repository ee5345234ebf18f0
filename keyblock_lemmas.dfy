/** What the keyblock codec guarantees: what `load` makes of the bytes
    `serialize` writes, how truncated input fails, and which error a
    malformed file produces. */
module KeyblockLemmas {
  import opened Wrappers
  import opened Bytes
  import Io
  import opened Utils
  import opened Keyblock

  /* Most proofs below start with `hide` statements: they keep the
     definitions of the reads and of the encodings away from the solver,
     which then works only from the contracts and the lemmas called. */

  /** What follows a record's uid on the wire: its three texts, each with
      its terminator, its length, then `tail`. A proof-only view of the end
      of `KeyFile.HeadEncoding`, grouped from the front so that each read
      sees its field first; `HeadRegrouped` shows the two agree. */
  function TextsEncoding(k: KeyFile, tail: seq<byte>): seq<byte> {
    Utf8(k.path) + [0] + (Utf8(k.name) + [0] + (Utf8(k.description) + [0]
    + (LittleEndian(k.length, 8) + tail)))
  }

  /** A record's head followed by `tail`, grouped field by field from the
      front. */
  lemma HeadRegrouped(k: KeyFile, tail: seq<byte>)
    ensures k.HeadEncoding() + tail
            == LittleEndian(k.flags, 8) + (k.secret + (LittleEndian(k.uid, 2) + TextsEncoding(k, tail)))
  {
    hide LittleEndian, Utf8;
  }

  /** The first three reads of `KeyFile::load` (flags, secret, uid) return
      the fields written for them, and the rest of the record is read from
      where the uid ends. */
  lemma NumbersFrom(data: seq<byte>, pos: nat, k: KeyFile, tail: seq<byte>) returns (p3: nat)
    requires pos <= |data| && data[pos..] == k.HeadEncoding() + tail
    requires |k.secret| == SECRET_SIZE / 8
    ensures p3 == pos + 8 + SECRET_SIZE / 8 + 2 <= |data|
    ensures data[p3..] == TextsEncoding(k, tail)
    ensures KeyFileAt(data, pos) == KeyFileTextsAt(data, p3, k.flags, k.secret, k.uid)
  {
    HeadRegrouped(k, tail);
    hide LittleEndian, Utf8, Io.ExactAt, Io.U16At, Io.U64At, TextsEncoding, KeyFileTextsAt, Lift;
    var r3 := LittleEndian(k.uid, 2) + TextsEncoding(k, tail);
    var r2 := k.secret + r3;
    var p1 := pos + 8;
    var p2 := p1 + SECRET_SIZE / 8;
    p3 := p2 + 2;
    Io.U64From(data, pos, k.flags, r2);
    Io.ExactFrom(data, p1, k.secret, r3);
    Io.U16From(data, p2, k.uid, TextsEncoding(k, tail));
  }

  /** The three texts of a record read back as written; the length is read
      from where the description's terminator ends. */
  lemma TextsFrom(data: seq<byte>, p3: nat, k: KeyFile, tail: seq<byte>) returns (p6: nat)
    requires p3 <= |data| && data[p3..] == TextsEncoding(k, tail)
    requires IsCString(k.path) && IsCString(k.name) && IsCString(k.description)
    ensures p6 == p3 + |Utf8(k.path)| + 1 + |Utf8(k.name)| + 1 + |Utf8(k.description)| + 1 <= |data|
    ensures data[p6..] == LittleEndian(k.length, 8) + tail
    ensures KeyFileTextsAt(data, p3, k.flags, k.secret, k.uid)
            == KeyFileContentAt(data, p6, k.flags, k.secret, k.uid, k.path, k.name, k.description)
  {
    hide LittleEndian, Utf8, NullStringAt, KeyFileContentAt;
    var r7 := LittleEndian(k.length, 8) + tail;
    var r6 := Utf8(k.description) + [0] + r7;
    var r5 := Utf8(k.name) + [0] + r6;
    var p4 := p3 + |Utf8(k.path)| + 1;
    var p5 := p4 + |Utf8(k.name)| + 1;
    p6 := p5 + |Utf8(k.description)| + 1;
    NullStringFraming(data, p3, k.path, r5);
    NullStringFraming(data, p4, k.name, r6);
    NullStringFraming(data, p5, k.description, r7);
  }

  /** A length written at `pos` is read back, and the content is the next
      `length / 8` bytes, or end of input when fewer remain. */
  lemma ContentFrom(data: seq<byte>, pos: nat, k: KeyFile, tail: seq<byte>)
    requires pos <= |data| && data[pos..] == LittleEndian(k.length, 8) + tail
    ensures KeyFileContentAt(data, pos, k.flags, k.secret, k.uid, k.path, k.name, k.description) ==
              if |tail| < k.length / 8 then Err(UnexpectedEof)
              else Ok(Io.Parsed(k.(content := tail[..k.length / 8]), pos + 8 + k.length / 8))
  {
    Io.U64From(data, pos, k.length, tail);
    Io.ExactOf(data, pos + 8, tail, k.length / 8);
    hide LittleEndian, Io.ExactAt, Io.U64At, Lift;
  }

  /** Where a record's head ends, field by field. */
  lemma HeadLength(k: KeyFile, pos: nat, p6: nat)
    requires |k.secret| == SECRET_SIZE / 8
    requires p6 == pos + 8 + SECRET_SIZE / 8 + 2 + |Utf8(k.path)| + 1 + |Utf8(k.name)| + 1 + |Utf8(k.description)| + 1
    ensures p6 + 8 == pos + |k.HeadEncoding()|
  {
  }

  /** A record's head written at `pos` reads back field by field; the content
      is then the next `length / 8` bytes, or the read fails with end of
      input when fewer remain. */
  lemma KeyFileFrom(data: seq<byte>, pos: nat, k: KeyFile, tail: seq<byte>)
    requires pos <= |data| && data[pos..] == k.HeadEncoding() + tail
    requires k.HeadEncodable()
    ensures KeyFileAt(data, pos) ==
              if |tail| < k.length / 8 then Err(UnexpectedEof)
              else Ok(Io.Parsed(k.(content := tail[..k.length / 8]),
                                pos + |k.HeadEncoding()| + k.length / 8))
  {
    hide KeyFileAt, KeyFileTextsAt, KeyFileContentAt, Io.U64At, Io.U16At, Io.ExactAt;
    hide NullStringAt, Utf8, LittleEndian, TextsEncoding, KeyFile.HeadEncoding, Lift;
    var p3 := NumbersFrom(data, pos, k, tail);
    var p6 := TextsFrom(data, p3, k, tail);
    HeadLength(k, pos, p6);
    ContentFrom(data, p6, k, tail);
  }

  /** `KeyFile::load` reads back what `KeyFile::serialize` wrote, and stops
      exactly at its end. */
  lemma KeyFileRoundTrip(data: seq<byte>, pos: nat, k: KeyFile, rest: seq<byte>)
    requires pos <= |data| && data[pos..] == k.Encoding() + rest
    requires k.Encodable()
    ensures KeyFileAt(data, pos) == Ok(Io.Parsed(k, pos + |k.Encoding()|))
  {
    hide KeyFileAt, KeyFile.HeadEncoding, Utf8, LittleEndian, IsCString;
    assert k.Encoding() + rest == k.HeadEncoding() + (k.content + rest);
    KeyFileFrom(data, pos, k, k.content + rest);
    assert (k.content + rest)[..k.length / 8] == k.content;
    assert k.(content := k.content) == k;
  }

  /** Records written back to back read back as the same records, in
      order. */
  lemma {:induction false} RecordsRoundTrip(data: seq<byte>, pos: nat, ks: seq<KeyFile>, rest: seq<byte>)
    requires pos <= |data| && data[pos..] == RecordsEncoding(ks) + rest
    requires |ks| < U64_RANGE
    requires forall i :: 0 <= i < |ks| ==> ks[i].Encodable()
    ensures RecordsAt(data, pos, |ks|) == Ok(Io.Parsed(ks, pos + |RecordsEncoding(ks)|))
    decreases |ks|
  {
    hide KeyFileAt, KeyFile.Encoding;
    if ks != [] {
      var init := ks[..|ks| - 1];
      var last := ks[|ks| - 1];
      assert RecordsEncoding(ks) + rest == RecordsEncoding(init) + (last.Encoding() + rest);
      RecordsRoundTrip(data, pos, init, last.Encoding() + rest);
      Io.ExactFrom(data, pos, RecordsEncoding(init), last.Encoding() + rest);
      KeyFileRoundTrip(data, pos + |RecordsEncoding(init)|, last, rest);
      assert init + [last] == ks;
    }
  }

  /** Reading `n` records fails with `KeyfileParseError(i, e)` exactly when
      the first `i` records read, `i < n`, and the next one fails with
      `e`. */
  lemma {:induction false} RecordsFailure(data: seq<byte>, pos: nat, n: u64, i: u64, e: ParseError)
    requires pos <= |data|
    ensures RecordsAt(data, pos, n) == Err(KeyfileParseError(i, e))
            <==> i < n && RecordsAt(data, pos, i).Ok?
                 && KeyFileAt(data, RecordsAt(data, pos, i).value.next) == Err(e)
    decreases n
  {
    hide KeyFileAt;
    if n > 0 {
      RecordsFailure(data, pos, n - 1, i, e);
    }
  }

  /** What follows a block's uid on the wire: name and description, each
      with its terminator, the number of keyfiles, then `tail`. A proof-only
      view of the end of `KeyBlock.HeaderEncoding`, grouped from the front;
      `HeaderRegrouped` shows the two agree. */
  function HeaderTextsEncoding(name: string, description: string, count: nat, tail: seq<byte>): seq<byte> {
    Utf8(name) + [0] + (Utf8(description) + [0] + (LittleEndian(count, 8) + tail))
  }

  /** A block's header followed by `tail`, grouped field by field from the
      front. */
  lemma HeaderRegrouped<K>(b: KeyBlock<K>, tail: seq<byte>)
    ensures b.HeaderEncoding() + tail
            == MAGIC_NUMBER + (LittleEndian(FORMAT_SPECIFIER, 2) + (LittleEndian(b.flags, 8)
               + (b.secret + (LittleEndian(b.uid, 2)
               + HeaderTextsEncoding(b.name, b.description, |b.keys| % U64_RANGE, tail)))))
  {
    hide LittleEndian, Utf8;
  }

  /** Name, description and count written at `pos` read back as written. */
  lemma HeaderTextsFrom(data: seq<byte>, pos: nat, flags: u64, secret: seq<byte>, uid: u16,
                        name: string, description: string, count: u64, tail: seq<byte>)
    requires pos <= |data| && data[pos..] == HeaderTextsEncoding(name, description, count, tail)
    requires IsCString(name) && IsCString(description)
    ensures HeaderTextsAt(data, pos, flags, secret, uid)
            == Ok(Io.Parsed(Header(FORMAT_SPECIFIER, flags, secret, uid, name, description, count),
                            pos + |Utf8(name)| + 1 + |Utf8(description)| + 1 + 8))
  {
    hide LittleEndian, Utf8, NullStringAt, Io.U64At, Lift;
    var r2 := LittleEndian(count, 8) + tail;
    var r1 := Utf8(description) + [0] + r2;
    var p1 := pos + |Utf8(name)| + 1;
    var p2 := p1 + |Utf8(description)| + 1;
    NullStringFraming(data, pos, name, r1);
    NullStringFraming(data, p1, description, r2);
    Io.U64From(data, p2, count, tail);
  }

  /** Flags, secret and uid written at `pos` read back as written; the rest
      of the header is read from where the uid ends. */
  lemma HeaderFieldsFrom(data: seq<byte>, pos: nat, flags: u64, secret: seq<byte>, uid: u16,
                         rest: seq<byte>) returns (next: nat)
    requires pos <= |data|
    requires data[pos..] == LittleEndian(flags, 8) + (secret + (LittleEndian(uid, 2) + rest))
    requires |secret| == SECRET_SIZE / 8
    ensures next == pos + 8 + SECRET_SIZE / 8 + 2 <= |data|
    ensures data[next..] == rest
    ensures HeaderFieldsAt(data, pos) == HeaderTextsAt(data, next, flags, secret, uid)
  {
    hide LittleEndian, Io.ExactAt, Io.U16At, Io.U64At, HeaderTextsAt, Lift;
    var r2 := LittleEndian(uid, 2) + rest;
    var p1 := pos + 8;
    var p2 := p1 + SECRET_SIZE / 8;
    Io.U64From(data, pos, flags, secret + r2);
    Io.ExactFrom(data, p1, secret, r2);
    Io.U16From(data, p2, uid, rest);
    next := p2 + 2;
  }

  /** The magic number and format specifier that `KeyBlock::serialize`
      writes pass both checks of `KeyBlock::load`, which goes on to read
      the remaining fields after them. */
  lemma PreambleFrom(data: seq<byte>, fields: seq<byte>)
    requires data == MAGIC_NUMBER + (LittleEndian(FORMAT_SPECIFIER, 2) + fields)
    ensures |MAGIC_NUMBER| + 2 <= |data| && data[|MAGIC_NUMBER| + 2..] == fields
    ensures HeaderAt(data) == HeaderFieldsAt(data, |MAGIC_NUMBER| + 2)
  {
    hide LittleEndian, Io.ReadAt, Io.ExactAt, Io.U16At, HeaderFieldsAt, Lift, CompareBuffers;
    assert data[0..] == data;
    Io.ExactFrom(data, 0, MAGIC_NUMBER, LittleEndian(FORMAT_SPECIFIER, 2) + fields);
    assert Io.ReadAt(data, 0, |MAGIC_NUMBER|) == Io.Parsed(MAGIC_NUMBER, |MAGIC_NUMBER|);
    Io.U16From(data, |MAGIC_NUMBER|, FORMAT_SPECIFIER, fields);
  }

  /** `KeyBlock::load` reads back the header `KeyBlock::serialize` writes,
      with the format specifier the constant and the count of records the
      size of the mapping modulo 2^64. */
  lemma HeaderFrom<K>(b: KeyBlock<K>, tail: seq<byte>)
    requires |b.secret| == SECRET_SIZE / 8 && IsCString(b.name) && IsCString(b.description)
    ensures HeaderAt(b.HeaderEncoding() + tail)
            == Ok(Io.Parsed(Header(FORMAT_SPECIFIER, b.flags, b.secret, b.uid, b.name,
                                   b.description, |b.keys| % U64_RANGE),
                            |b.HeaderEncoding()|))
  {
    hide LittleEndian, Utf8, HeaderAt, HeaderFieldsAt, HeaderTextsAt, HeaderTextsEncoding;
    hide KeyBlock.HeaderEncoding;
    var count: u64 := |b.keys| % U64_RANGE;
    var texts := HeaderTextsEncoding(b.name, b.description, count, tail);
    var fields := LittleEndian(b.flags, 8) + (b.secret + (LittleEndian(b.uid, 2) + texts));
    var data := b.HeaderEncoding() + tail;
    HeaderRegrouped(b, tail);
    PreambleFrom(data, fields);
    var p := HeaderFieldsFrom(data, |MAGIC_NUMBER| + 2, b.flags, b.secret, b.uid, texts);
    assert p <= |data| && data[p..] == HeaderTextsEncoding(b.name, b.description, count, tail);
    assert IsCString(b.name) && IsCString(b.description);
    HeaderTextsFrom(data, p, b.flags, b.secret, b.uid, b.name, b.description, count, tail);
    HeaderLength(b, p);
  }

  /** Where a block's header ends, field by field. */
  lemma HeaderLength<K>(b: KeyBlock<K>, p: nat)
    requires |b.secret| == SECRET_SIZE / 8
    requires p == |MAGIC_NUMBER| + 2 + 8 + SECRET_SIZE / 8 + 2
    ensures p + |Utf8(b.name)| + 1 + |Utf8(b.description)| + 1 + 8 == |b.HeaderEncoding()|
  {
  }

  /** Any record's encoding is its fixed-size fields, each text's UTF-8
      bytes (`String::len`) and a terminator, and the content with no length
      prefix of its own. */
  lemma KeyFileEncodingSize(k: KeyFile)
    ensures |k.Encoding()| == 8 + |k.secret| + 2 + (|Utf8(k.path)| + 1) + (|Utf8(k.name)| + 1)
                              + (|Utf8(k.description)| + 1) + 8 + |k.content|
  {
  }

  /** With ASCII texts each character takes one byte. */
  lemma KeyFileEncodingLength(k: KeyFile)
    requires IsCString(k.path) && IsCString(k.name) && IsCString(k.description)
    ensures |k.Encoding()| == 8 + |k.secret| + 2 + (|k.path| + 1) + (|k.name| + 1)
                              + (|k.description| + 1) + 8 + |k.content|
  {
    KeyFileEncodingSize(k);
  }

  /** Inserting the records in order leaves each path mapped to the last
      record that carries it, and the mapping holds exactly the paths of
      the records. */
  lemma {:induction false} KeysOfLatest(records: seq<KeyFile>, i: nat)
    requires i < |records|
    requires forall j :: i < j < |records| ==> records[j].path != records[i].path
    ensures KeysOf(records)[records[i].path] == records[i]
    ensures forall p :: p in KeysOf(records) <==> exists j :: 0 <= j < |records| && records[j].path == p
    decreases |records|
  {
    var init := records[..|records| - 1];
    if i < |records| - 1 {
      KeysOfLatest(init, i);
    }
  }

  /** An enumeration lists as many paths as the set has members. */
  lemma {:induction false} EnumerationLength(paths: seq<string>, keys: set<string>)
    requires IsEnumeration(paths, keys)
    ensures |keys| == |paths|
    decreases |paths|
  {
    if paths == [] {
      assert keys == {};
    } else {
      var init := paths[..|paths| - 1];
      var last := paths[|paths| - 1];
      assert paths == init + [last];
      assert IsEnumeration(init, keys - {last});
      EnumerationLength(init, keys - {last});
    }
  }

  /** Loading the records of a mapping whose records are filed under their
      own paths, in any order that lists each path once, rebuilds the
      mapping. */
  lemma KeysOfEnumerated(keys: map<string, KeyFile>, paths: seq<string>)
    requires forall i :: 0 <= i < |paths| ==> paths[i] in keys
    requires forall p :: p in keys ==> keys[p].path == p
    ensures forall p :: p in KeysOf(Enumerated(keys, paths)) <==> p in paths
    ensures forall p :: p in KeysOf(Enumerated(keys, paths)) ==> KeysOf(Enumerated(keys, paths))[p] == keys[p]
  {
  }

  /** The mapping rebuilt from an enumeration of its own keys is the
      mapping itself. */
  lemma KeysOfEnumeration(keys: map<string, KeyFile>, paths: seq<string>)
    requires IsEnumeration(paths, keys.Keys)
    requires forall p :: p in keys ==> keys[p].path == p
    ensures forall i :: 0 <= i < |paths| ==> paths[i] in keys
    ensures KeysOf(Enumerated(keys, paths)) == keys
  {
    KeysOfEnumerated(keys, paths);
  }

  /** `KeyBlock::load` once the header and the records have been read: the
      signature is the next `SIGNATURE_SIZE / 8` bytes, and the mapping is
      built from the records. */
  lemma KeyBlockAtStages<K>(data: seq<byte>, rootPubkey: K, h: Header, hn: nat, ks: seq<KeyFile>,
                            rn: nat)
    requires HeaderAt(data) == Ok(Io.Parsed(h, hn)) && hn <= |data|
    requires RecordsAt(data, hn, h.count) == Ok(Io.Parsed(ks, rn)) && rn <= |data|
    ensures KeyBlockAt(data, rootPubkey)
            == if rn + SIGNATURE_SIZE / 8 <= |data|
               then Ok(KeyBlock(rootPubkey, h.formatSpecifier, h.flags, h.secret, h.uid, h.name,
                                h.description, KeysOf(ks), data[rn..rn + SIGNATURE_SIZE / 8]))
               else Err(UnexpectedEof)
  {
    hide HeaderAt, RecordsAt, KeysOf, KeyFileAt;
  }

  /** The records of an encodable block in an enumeration order: as many as
      the mapping has entries, each encodable, and rebuilding the mapping
      when inserted in order. */
  lemma EnumeratedRecords<K>(b: KeyBlock<K>, paths: seq<string>) returns (ks: seq<KeyFile>)
    requires b.Encodable() && IsEnumeration(paths, b.keys.Keys)
    ensures forall i :: 0 <= i < |paths| ==> paths[i] in b.keys
    ensures ks == Enumerated(b.keys, paths)
    ensures |ks| < U64_RANGE && |b.keys| % U64_RANGE == |ks|
    ensures forall i :: 0 <= i < |ks| ==> ks[i].Encodable()
    ensures KeysOf(ks) == b.keys
  {
    hide KeysOf, KeyFile.Encodable;
    KeysOfEnumeration(b.keys, paths);
    EnumerationLength(paths, b.keys.Keys);
    ks := Enumerated(b.keys, paths);
  }

  /** The header and the records that `KeyBlock::serialize` writes read
      back: the header with the constant format specifier and the number of
      records as count, then the records in the order written, leaving the
      reader where `tail` begins. */
  lemma HeaderRecordsFrom<K>(b: KeyBlock<K>, paths: seq<string>, tail: seq<byte>)
    returns (ks: seq<KeyFile>, hn: nat, rn: nat)
    requires b.Encodable() && IsEnumeration(paths, b.keys.Keys)
    ensures forall i :: 0 <= i < |paths| ==> paths[i] in b.keys
    ensures ks == Enumerated(b.keys, paths) && KeysOf(ks) == b.keys && |ks| < U64_RANGE
    ensures var data := b.HeaderEncoding() + RecordsEncoding(ks) + tail;
      && hn <= rn <= |data| && data[rn..] == tail
      && HeaderAt(data)
         == Ok(Io.Parsed(Header(FORMAT_SPECIFIER, b.flags, b.secret, b.uid, b.name, b.description, |ks|), hn))
      && RecordsAt(data, hn, |ks|) == Ok(Io.Parsed(ks, rn))
  {
    hide HeaderAt, RecordsAt, Io.ExactAt, KeyBlock.HeaderEncoding, RecordsEncoding, Enumerated, KeysOf;
    hide IsEnumeration, LittleEndian, Utf8, KeyFile.Encodable, KeyBlockAt, KeyFileAt;
    ks := EnumeratedRecords(b, paths);
    var he := b.HeaderEncoding();
    var re := RecordsEncoding(ks);
    var data := he + re + tail;
    assert data[0..] == he + (re + tail);
    assert |b.secret| == SECRET_SIZE / 8 && IsCString(b.name) && IsCString(b.description);
    HeaderFrom(b, re + tail);
    Io.ExactFrom(data, 0, he, re + tail);
    RecordsRoundTrip(data, |he|, ks, tail);
    Io.ExactFrom(data, |he|, re, tail);
    hn := |he|;
    rn := |he| + |re|;
  }

  /** A block whose header and records were written by `KeyBlock::serialize`
      loads back with the format specifier the constant, the same mapping,
      and the next `SIGNATURE_SIZE / 8` bytes as its signature; with fewer
      bytes left the signature read fails with end of input. */
  lemma KeyBlockFrom<K>(b: KeyBlock<K>, paths: seq<string>, tail: seq<byte>)
    requires b.Encodable() && IsEnumeration(paths, b.keys.Keys)
    ensures forall i :: 0 <= i < |paths| ==> paths[i] in b.keys
    ensures KeyBlockAt(b.HeaderEncoding() + RecordsEncoding(Enumerated(b.keys, paths)) + tail, b.rootPubkey)
            == if |tail| < SIGNATURE_SIZE / 8 then Err(UnexpectedEof)
               else Ok(b.(formatSpecifier := FORMAT_SPECIFIER, signature := tail[..SIGNATURE_SIZE / 8]))
  {
    hide HeaderAt, RecordsAt, Io.ExactAt, KeyBlock.HeaderEncoding, RecordsEncoding, Enumerated, KeysOf;
    hide IsEnumeration, LittleEndian, Utf8, KeyFile.Encodable, KeyBlockAt, KeyFileAt;
    var ks, hn, rn := HeaderRecordsFrom(b, paths, tail);
    var data := b.HeaderEncoding() + RecordsEncoding(ks) + tail;
    var h := Header(FORMAT_SPECIFIER, b.flags, b.secret, b.uid, b.name, b.description, |ks|);
    KeyBlockAtStages(data, b.rootPubkey, h, hn, ks, rn);
    if SIGNATURE_SIZE / 8 <= |tail| {
      assert data[rn..rn + SIGNATURE_SIZE / 8] == tail[..SIGNATURE_SIZE / 8];
    }
  }

  /** `KeyBlock::load` reads back what `KeyBlock::serialize` wrote, whatever
      order the mapping yielded its records in and whatever follows the
      signature; only the format specifier becomes the constant. */
  lemma KeyBlockRoundTrip<K>(b: KeyBlock<K>, paths: seq<string>, trailing: seq<byte>)
    requires b.Encodable() && IsEnumeration(paths, b.keys.Keys)
    ensures forall i :: 0 <= i < |paths| ==> paths[i] in b.keys
    ensures KeyBlockAt(b.Encoding(paths) + trailing, b.rootPubkey)
            == Ok(b.(formatSpecifier := FORMAT_SPECIFIER))
  {
    hide KeyBlockAt, KeyBlock.HeaderEncoding, RecordsEncoding, Enumerated, KeyFile.Encodable;
    KeyBlockFrom(b, paths, b.signature + trailing);
    var ks := Enumerated(b.keys, paths);
    assert b.Encoding(paths) + trailing
           == b.HeaderEncoding() + RecordsEncoding(ks) + (b.signature + trailing);
    assert (b.signature + trailing)[..SIGNATURE_SIZE / 8] == b.signature;
  }

  /** Whatever `KeyBlock::serialize` returns for an encodable block loads
      back as that block, with the constant format specifier. */
  lemma SerializedLoads<K>(b: KeyBlock<K>, buffer: seq<byte>)
    requires b.Encodable()
    requires exists paths :: IsEnumeration(paths, b.keys.Keys) && buffer == b.Encoding(paths)
    ensures KeyBlockAt(buffer, b.rootPubkey) == Ok(b.(formatSpecifier := FORMAT_SPECIFIER))
  {
    var paths :| IsEnumeration(paths, b.keys.Keys) && buffer == b.Encoding(paths);
    KeyBlockRoundTrip(b, paths, []);
    assert buffer + [] == buffer;
  }

  /** The magic number is checked first: `InvalidMagicNumber` exactly when
      fewer than five bytes are there or they are not "banjo". */
  lemma HeaderMagic(data: seq<byte>)
    ensures HeaderAt(data) == Err(InvalidMagicNumber)
            <==> |data| < |MAGIC_NUMBER| || data[..|MAGIC_NUMBER|] != MAGIC_NUMBER
  {
    hide HeaderFieldsAt;
  }

  /** After a valid magic number, a stream that ends inside the format
      specifier fails with end of input, and `UnknownFormatSpecifier` is
      reported exactly when its two bytes are not the constant's. */
  lemma HeaderFormat(data: seq<byte>)
    requires |data| >= |MAGIC_NUMBER| && data[..|MAGIC_NUMBER|] == MAGIC_NUMBER
    ensures |data| < |MAGIC_NUMBER| + 2 ==> HeaderAt(data) == Err(UnexpectedEof)
    ensures HeaderAt(data) == Err(UnknownFormatSpecifier)
            <==> |data| >= |MAGIC_NUMBER| + 2
                 && data[|MAGIC_NUMBER|..|MAGIC_NUMBER| + 2] != LittleEndian(FORMAT_SPECIFIER, 2)
  {
    hide HeaderFieldsAt;
    if |data| >= |MAGIC_NUMBER| + 2 {
      var v := Io.U16At(data, |MAGIC_NUMBER|).value.value;
      Io.Pow256Widths();
      FromToLittleEndian(v, 2);
      FromToLittleEndian(FORMAT_SPECIFIER, 2);
    }
  }

  /** Errors other than a keyfile's and end of input come from the header
      alone: the records and the signature are never reached. */
  lemma KeyBlockHeaderError<K>(data: seq<byte>, rootPubkey: K, e: ParseError)
    requires !e.KeyfileParseError? && !e.UnexpectedEof?
    ensures KeyBlockAt(data, rootPubkey) == Err(e) <==> HeaderAt(data) == Err(e)
  {
    hide HeaderAt, RecordsAt, KeyFileAt, KeysOf;
  }

  /** `KeyBlock::load` fails with `KeyfileParseError(i, e)` exactly when the
      header reads, the first `i` records read, `i` is below the count, and
      the next record fails with `e`. */
  lemma KeyBlockKeyfileError<K>(data: seq<byte>, rootPubkey: K, i: u64, e: ParseError)
    ensures KeyBlockAt(data, rootPubkey) == Err(KeyfileParseError(i, e))
            <==> && HeaderAt(data).Ok?
                 && i < HeaderAt(data).value.value.count
                 && RecordsAt(data, HeaderAt(data).value.next, i).Ok?
                 && KeyFileAt(data, RecordsAt(data, HeaderAt(data).value.next, i).value.next) == Err(e)
  {
    hide HeaderAt, RecordsAt, KeyFileAt, KeysOf;
    if HeaderAt(data).Ok? {
      var h := HeaderAt(data).value;
      RecordsFailure(data, h.next, h.value.count, i, e);
    }
  }

  /** The first checks of `KeyBlock::load`, seen from its result: a missing
      or wrong magic number gives `InvalidMagicNumber`, a wrong format
      specifier after it `UnknownFormatSpecifier`, and an input that ends
      inside the format specifier `UnexpectedEof`. */
  lemma KeyBlockPreamble<K>(data: seq<byte>, rootPubkey: K)
    ensures KeyBlockAt(data, rootPubkey) == Err(InvalidMagicNumber)
            <==> |data| < |MAGIC_NUMBER| || data[..|MAGIC_NUMBER|] != MAGIC_NUMBER
    ensures KeyBlockAt(data, rootPubkey) == Err(UnknownFormatSpecifier)
            <==> && |data| >= |MAGIC_NUMBER| + 2 && data[..|MAGIC_NUMBER|] == MAGIC_NUMBER
                 && data[|MAGIC_NUMBER|..|MAGIC_NUMBER| + 2] != LittleEndian(FORMAT_SPECIFIER, 2)
    ensures |MAGIC_NUMBER| <= |data| < |MAGIC_NUMBER| + 2 && data[..|MAGIC_NUMBER|] == MAGIC_NUMBER
            ==> KeyBlockAt(data, rootPubkey) == Err(UnexpectedEof)
  {
    hide HeaderAt, RecordsAt, KeyFileAt, KeysOf;
    HeaderMagic(data);
    KeyBlockHeaderError(data, rootPubkey, InvalidMagicNumber);
    KeyBlockHeaderError(data, rootPubkey, UnknownFormatSpecifier);
    if |data| >= |MAGIC_NUMBER| && data[..|MAGIC_NUMBER|] == MAGIC_NUMBER {
      HeaderFormat(data);
    }
  }
}
