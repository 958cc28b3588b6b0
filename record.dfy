/** One hidden file as `prepare_file_data` writes it and `extract_file_data`
    reads it back: BE32(len(meta)) ‖ meta ‖ content, where meta is the UTF-8
    JSON text of {"filename", "size", "timestamp"}, the whole optionally
    wrapped in the password envelope. */
module Record {
  import opened Common
  import opened Envelope

  const InvalidMetadata: string := "Invalid metadata format"

  /** The metadata dictionary `prepare_file_data` builds. */
  datatype Metadata = Metadata(filename: string, size: nat, timestamp: string)

  /** The parsed metadata object, as far as the program reads it: each key
      may be missing. */
  datatype MetaDoc = MetaDoc(filename: Option<string>, size: Option<int>, timestamp: Option<string>)

  /** What `extract_file_data` returns: the metadata and the file content. */
  datatype FileRecord = FileRecord(metadata: MetaDoc, content: seq<byte>)

  /** `json.dumps`, `json.loads` (None when it raises JSONDecodeError),
      `str.encode()` and `bytes.decode()` (the UnicodeDecodeError text when
      the bytes are not UTF-8). */
  datatype Json = Json(
    dumps: Metadata -> string,
    loads: string -> Option<MetaDoc>,
    encodeUtf8: string -> seq<byte>,
    decodeUtf8: seq<byte> -> Result<string>)

  /** The parsed form of a metadata dictionary: every key present. */
  function DocOf(m: Metadata): MetaDoc
  {
    MetaDoc(Some(m.filename), Some(m.size), Some(m.timestamp))
  }

  /** What the round trip needs of the JSON and UTF-8 libraries: parsing
      what was serialised gives the dictionary back. */
  ghost predicate RoundTrips(j: Json)
  {
    (forall m :: j.loads(j.dumps(m)) == Some(DocOf(m))) &&
    (forall s :: j.decodeUtf8(j.encodeUtf8(s)) == Ok(s))
  }

  /** A password argument as `if password:` sees it: None and "" are no password. */
  predicate HasPassword(password: Option<string>)
  {
    password.Some? && password.value != ""
  }

  /** BE32(len(meta)) ‖ meta ‖ content */
  function Frame(meta: seq<byte>, content: seq<byte>): seq<byte>
    requires |meta| < Two32
  {
    Be32(|meta|) + meta + content
  }

  /** `prepare_file_data(file_path, password)`. The file's bytes come as
      `contents` (the error text when `open` or `read` fails), `basename`
      is `os.path.basename(file_path)`, `now` the ISO timestamp, and `salt`
      and `iv` the random draws the envelope uses when a password is given. */
  function PrepareFileData(j: Json, c: Crypto, basename: string, contents: Result<seq<byte>>, now: string,
                           password: Option<string>, salt: seq<byte>, iv: Block): (r: Result<seq<byte>>)
    requires |salt| == SaltSize
  {
    match contents
    case Err(e) => Err(e)
    case Ok(data) =>
      var meta := j.encodeUtf8(j.dumps(Metadata(basename, |data|, now)));
      if |meta| >= Two32 then Err(OverflowMessage)
      else if HasPassword(password) then Ok(Encrypt(c, Frame(meta, data), password.value, salt, iv))
      else Ok(Frame(meta, data))
  }

  /** The framing half of `extract_file_data`: the length is read from the
      first (up to) four bytes, the metadata and the content are the clamped
      slices after it; undecodable bytes raise their own error, unparsable
      JSON is "Invalid metadata format". */
  function Unframe(j: Json, data: seq<byte>): (r: Result<FileRecord>)
  {
    var n := BeValue(Slice(data, 0, 4));
    var meta, content := Slice(data, 4, 4 + n), Slice(data, 4 + n, |data|);
    match j.decodeUtf8(meta)
    case Err(e) => Err(e)
    case Ok(text) =>
      match j.loads(text)
      case None => Err(InvalidMetadata)
      case Some(doc) => Ok(FileRecord(doc, content))
  }

  /** `extract_file_data(data, password)`: only with a password and a
      header is the data decrypted, and any failure to decrypt becomes
      "Incorrect password or corrupted data". */
  function ExtractFileData(j: Json, c: Crypto, data: seq<byte>, password: Option<string>): (r: Result<FileRecord>)
  {
    if HasPassword(password) && StartsWith(data, Header) then
      match Decrypt(c, data, password.value)
      case Err(_) => Err(WrongPassword)
      case Ok(plain) => Unframe(j, plain)
    else Unframe(j, data)
  }

  /** Reading a frame back gives its metadata bytes and its content. */
  lemma FrameSlices(meta: seq<byte>, content: seq<byte>)
    requires |meta| < Two32
    ensures var f := Frame(meta, content);
      BeValue(Slice(f, 0, 4)) == |meta| &&
      Slice(f, 4, 4 + |meta|) == meta &&
      Slice(f, 4 + |meta|, |f|) == content
  {
    var f := Frame(meta, content);
    assert f[..4] == Be32(|meta|);
    BeValueOfBe32(|meta|);
    assert f[4..4 + |meta|] == meta;
    assert f[4 + |meta|..] == content;
  }

  /** What `prepare_file_data` can answer: the read error, the overflow of
      a metadata text of 2^32 bytes or more, or the frame (enveloped when a
      password is given) of the metadata and the unchanged file bytes. */
  lemma PrepareOutcomes(j: Json, c: Crypto, basename: string, contents: Result<seq<byte>>, now: string,
                        password: Option<string>, salt: seq<byte>, iv: Block)
    requires |salt| == SaltSize
    ensures var r := PrepareFileData(j, c, basename, contents, now, password, salt, iv);
      (contents.Err? ==> r == Err(contents.message)) &&
      (contents.Ok? ==>
        var meta := j.encodeUtf8(j.dumps(Metadata(basename, |contents.value|, now)));
        (r.Err? <==> |meta| >= Two32) &&
        (r.Err? ==> r.message == OverflowMessage) &&
        (r.Ok? && !HasPassword(password) ==>
          BeValue(r.value[..4]) == |meta| && r.value[4..4 + |meta|] == meta && r.value[4 + |meta|..] == contents.value) &&
        (r.Ok? && HasPassword(password) ==>
          StartsWith(r.value, Header) && |r.value| == 44 + 16 * ((4 + |meta| + |contents.value|) / 16 + 1)))
  {
    var r := PrepareFileData(j, c, basename, contents, now, password, salt, iv);
    if contents.Ok? {
      var data := contents.value;
      var meta := j.encodeUtf8(j.dumps(Metadata(basename, |data|, now)));
      if |meta| < Two32 {
        FrameSlices(meta, data);
        if HasPassword(password) {
          EncryptLayout(c, Frame(meta, data), password.value, salt, iv);
        }
      }
    }
  }

  /** Round trip: the record `prepare_file_data` builds extracts, with the
      same password (or none), to the metadata it wrote and the file bytes. */
  lemma ExtractPrepared(j: Json, c: Crypto, basename: string, data: seq<byte>, now: string,
                        password: Option<string>, salt: seq<byte>, iv: Block)
    requires RoundTrips(j) && IsBlockCipher(c) && |salt| == SaltSize
    requires PrepareFileData(j, c, basename, Ok(data), now, password, salt, iv).Ok?
    ensures ExtractFileData(j, c, PrepareFileData(j, c, basename, Ok(data), now, password, salt, iv).value, password)
            == Ok(FileRecord(DocOf(Metadata(basename, |data|, now)), data))
  {
    var m := Metadata(basename, |data|, now);
    var meta := j.encodeUtf8(j.dumps(m));
    var f := Frame(meta, data);
    FrameSlices(meta, data);
    assert j.decodeUtf8(meta) == Ok(j.dumps(m));
    assert Unframe(j, f) == Ok(FileRecord(DocOf(m), data));
    if HasPassword(password) {
      EncryptLayout(c, f, password.value, salt, iv);
      DecryptEncrypt(c, f, password.value, salt, iv);
    } else {
      assert ExtractFileData(j, c, f, password) == Unframe(j, f);
    }
  }

  /** What `extract_file_data` can answer: with a password and a header,
      a failed decryption is "Incorrect password or corrupted data"; a
      frame whose metadata bytes decode but do not parse is "Invalid
      metadata format"; and the content read from a frame is everything
      after the declared metadata, empty when the frame is shorter. */
  lemma ExtractOutcomes(j: Json, c: Crypto, data: seq<byte>, password: Option<string>)
    ensures HasPassword(password) && StartsWith(data, Header) && Decrypt(c, data, password.value).Err? ==>
      ExtractFileData(j, c, data, password) == Err(WrongPassword)
    ensures !(HasPassword(password) && StartsWith(data, Header)) ==>
      ExtractFileData(j, c, data, password) == Unframe(j, data)
    ensures var n := BeValue(Slice(data, 0, 4));
      var r := Unframe(j, data);
      (j.decodeUtf8(Slice(data, 4, 4 + n)).Ok? && j.loads(j.decodeUtf8(Slice(data, 4, 4 + n)).value).None? ==>
        r == Err(InvalidMetadata)) &&
      (r.Ok? ==> |r.value.content| == (if 4 + n <= |data| then |data| - 4 - n else 0) &&
                 data == Slice(data, 0, 4 + n) + r.value.content)
  {
  }
}
