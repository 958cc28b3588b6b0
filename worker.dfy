/** The two background runs of `WorkerThread`: `_hide_files` and
    `_extract_files`. Each signal the run emits becomes an event appended to
    a trace; reading files, the clock, the random salt and IV, saving the
    image and the file system are parameters. */
module Worker {
  import opened Common
  import opened Envelope
  import opened Record
  import opened Archive
  import opened Lsb

  /** `progress_signal(int)`, `status_signal(str)`, `finished_signal(bool, str)` */
  datatype Event = Progress(percent: int) | Status(text: string) | Finished(success: bool, message: string)

  const TooSmall: string := "The selected image is too small to hide all the data"
  const OperationFailed: string := "Operation failed"
  const NoData: string := "No hidden data found in the image"
  const NeedPassword: string := "This image contains encrypted data. Please provide a password."
  /** `str(KeyError('filename'))` */
  const MissingFilename: string := "'filename'"

  /** One file chosen for hiding: `os.path.basename` of its path, its bytes
      (or the text of the error reading it raises) and the timestamp
      `datetime.now().isoformat()` gives when it is prepared. */
  datatype InputFile = InputFile(name: string, contents: Result<seq<byte>>, timestamp: string)

  /** `int(i / n * 50)`, taken as the exact floor of i·50/n. */
  function Percent(i: nat, n: nat): (r: nat)
    requires 0 < i <= n
    ensures r <= 50
  {
    DivLe(i * 50, n * 50, n);
    DivModUnique(n * 50, 50, 0, n);
    (i * 50) / n
  }

  lemma DivLe(a: nat, b: nat, n: nat)
    requires a <= b && n > 0
    ensures a / n <= b / n
  {
    var qa, ra, qb, rb := a / n, a % n, b / n, b % n;
    assert a == qa * n + ra && b == qb * n + rb;
    if qb < qa {
      RowBefore(qb, rb, qa, ra, n);
    }
  }

  /** Later steps never report less progress. */
  lemma PercentMonotone(i: nat, i2: nat, n: nat)
    requires 0 < i <= i2 <= n
    ensures Percent(i, n) <= Percent(i2, n)
  {
    DivLe(i * 50, i2 * 50, n);
  }

  /** The two events of a failed run: `Error: <message>`, then (False, message). */
  function Failure(events: seq<Event>, message: string): (r: seq<Event>)
    ensures |r| == |events| + 2 && r[..|events|] == events
    ensures r[|r| - 1] == Finished(false, message)
  {
    events + [Status("Error: " + message), Finished(false, message)]
  }

  // ---------------------------------------------------------------------
  // Well-formed traces

  predicate NoFinish(evs: seq<Event>)
  {
    forall a | 0 <= a < |evs| :: !evs[a].Finished?
  }

  predicate ProgressIn(evs: seq<Event>, lo: int, hi: int)
  {
    forall a | 0 <= a < |evs| :: evs[a].Progress? ==> lo <= evs[a].percent <= hi
  }

  predicate ProgressSorted(evs: seq<Event>)
  {
    forall a, b | 0 <= a < b < |evs| :: evs[a].Progress? && evs[b].Progress? ==> evs[a].percent <= evs[b].percent
  }

  /** What the progress bar and the completion handler may rely on: the run
      finishes exactly once, as its last event, and the progress it reports
      stays within 0..100 and never goes back. */
  predicate WellFormed(evs: seq<Event>)
  {
    |evs| > 0 && evs[|evs| - 1].Finished? && NoFinish(evs[..|evs| - 1]) &&
    ProgressIn(evs, 0, 100) && ProgressSorted(evs)
  }

  /** Two stretches of a trace, the second reporting no less than the first. */
  lemma Concat(a: seq<Event>, b: seq<Event>, lo: int, mid: int, hi: int)
    requires lo <= mid <= hi
    requires ProgressIn(a, lo, mid) && ProgressIn(b, mid, hi) && ProgressSorted(a) && ProgressSorted(b)
    ensures ProgressIn(a + b, lo, hi) && ProgressSorted(a + b)
    ensures NoFinish(a) && NoFinish(b) ==> NoFinish(a + b)
  {
    var ab := a + b;
    forall x | 0 <= x < |ab| && ab[x].Progress?
      ensures lo <= ab[x].percent <= hi
    {
      if x < |a| {
        assert ab[x] == a[x];
      } else {
        assert ab[x] == b[x - |a|];
      }
    }
    forall x, y | 0 <= x < y < |ab| && ab[x].Progress? && ab[y].Progress?
      ensures ab[x].percent <= ab[y].percent
    {
      if y < |a| {
        assert ab[x] == a[x] && ab[y] == a[y];
      } else if x >= |a| {
        assert ab[x] == b[x - |a|] && ab[y] == b[y - |a|];
      } else {
        assert ab[x] == a[x] && ab[y] == b[y - |a|];
      }
    }
  }

  /** A trace that ends with one `Finished` after a finish-free stretch of
      sorted progress in 0..100 is well formed. */
  lemma EndsWell(evs: seq<Event>, last: seq<Event>, lo: int, mid: int)
    requires 0 <= lo <= mid <= 100 && |last| > 0 && last[|last| - 1].Finished?
    requires NoFinish(evs) && NoFinish(last[..|last| - 1])
    requires ProgressIn(evs, lo, mid) && ProgressSorted(evs) && ProgressIn(last, mid, 100) && ProgressSorted(last)
    ensures WellFormed(evs + last)
  {
    Concat(evs, last, lo, mid, 100);
    assert (evs + last)[..|evs + last| - 1] == evs + last[..|last| - 1];
    Concat(evs, last[..|last| - 1], lo, mid, 100);
  }

  // ---------------------------------------------------------------------
  // _hide_files

  function PreparingText(i: nat, n: nat, name: string): string
  {
    "Preparing file " + Dec(i) + "/" + Dec(n) + ": " + name
  }

  /** `prepare_file_data(file_path, None)`: the records are not encrypted
      one by one, so the salt and IV go unused. */
  function PrepareOne(j: Json, c: Crypto, f: InputFile, salt: seq<byte>, iv: Block): Result<seq<byte>>
    requires |salt| == SaltSize
  {
    PrepareFileData(j, c, f.name, f.contents, f.timestamp, None, salt, iv)
  }

  /** The events of the preparation loop so far and the records prepared,
      or the error that stopped it. */
  datatype Prepared = Prepared(events: seq<Event>, records: Result<seq<seq<byte>>>)

  /** The first k rounds of the preparation loop: for each file the
      "Preparing file i/n" status, `prepare_file_data(path, None)`, then the
      progress i·50/n; the first error ends the loop. */
  function PrepareAll(j: Json, c: Crypto, files: seq<InputFile>, k: nat, salt: seq<byte>, iv: Block): Prepared
    requires k <= |files| && |salt| == SaltSize
    decreases k
  {
    if k == 0 then Prepared([], Ok([]))
    else
      var prev := PrepareAll(j, c, files, k - 1, salt, iv);
      if prev.records.Err? then prev
      else
        var f := files[k - 1];
        var ev := prev.events + [Status(PreparingText(k, |files|, f.name))];
        match PrepareOne(j, c, f, salt, iv)
        case Err(e) => Prepared(ev, Err(e))
        case Ok(rec) => Prepared(ev + [Progress(Percent(k, |files|))], Ok(prev.records.value + [rec]))
  }

  /** Once the preparation loop has failed, later rounds change nothing. */
  lemma {:induction false} PrepareAllStops(j: Json, c: Crypto, files: seq<InputFile>, k: nat, k2: nat, salt: seq<byte>, iv: Block)
    requires k <= k2 <= |files| && |salt| == SaltSize
    requires PrepareAll(j, c, files, k, salt, iv).records.Err?
    ensures PrepareAll(j, c, files, k2, salt, iv) == PrepareAll(j, c, files, k, salt, iv)
    decreases k2
  {
    if k < k2 {
      PrepareAllStops(j, c, files, k, k2 - 1, salt, iv);
    }
  }

  /** The preparation loop of `_hide_files` (invisiovault.py:286-291). */
  method PrepareRecords(j: Json, c: Crypto, files: seq<InputFile>, salt: seq<byte>, iv: Block)
    returns (events: seq<Event>, records: Result<seq<seq<byte>>>)
    requires |salt| == SaltSize
    ensures Prepared(events, records) == PrepareAll(j, c, files, |files|, salt, iv)
  {
    events := [];
    var all: seq<seq<byte>> := [];
    var i := 0;
    while i < |files|
      invariant 0 <= i <= |files|
      invariant PrepareAll(j, c, files, i, salt, iv) == Prepared(events, Ok(all))
    {
      var f := files[i];
      events := events + [Status(PreparingText(i + 1, |files|, f.name))];
      var r := PrepareOne(j, c, f, salt, iv);
      if r.Err? {
        PrepareAllStops(j, c, files, i + 1, |files|, salt, iv);
        return events, Err(r.message);
      }
      all := all + [r.value];
      events := events + [Progress(Percent(i + 1, |files|))];
      i := i + 1;
    }
    records := Ok(all);
  }

  /** The events up to the capacity check and the bytes to hide: the
      archive of the prepared records, enveloped when a password is given. */
  datatype Payload = Payload(events: seq<Event>, data: Result<seq<byte>>)

  function HidePayload(j: Json, c: Crypto, files: seq<InputFile>, password: Option<string>,
                       salt: seq<byte>, iv: Block): Payload
    requires |salt| == SaltSize
  {
    var p := PrepareAll(j, c, files, |files|, salt, iv);
    match p.records
    case Err(e) => Payload(p.events, Err(e))
    case Ok(records) =>
      match Packed(records)
      case Err(e) => Payload(p.events, Err(e))
      case Ok(archive) =>
        if HasPassword(password) then
          Payload(p.events + [Status("Encrypting data...")], Ok(Encrypt(c, archive, password.value, salt, iv)))
        else Payload(p.events, Ok(archive))
  }

  /** `hide_data_in_image` succeeds on the grid: the length prefix fits and
      `can_hide_data` holds for the prefixed payload. */
  predicate Embeds(width: nat, height: nat, data: seq<byte>)
  {
    |data| < Two32 && CanHide(width, height, |data| + 4)
  }

  /** The events after the payload is built: its error, the too-small
      error, or the embedding and how it ended. */
  function HideEnd(d: Result<seq<byte>>, width: nat, height: nat, saved: bool, outputPath: string): seq<Event>
  {
    match d
    case Err(e) => [Status("Error: " + e), Finished(false, e)]
    case Ok(data) =>
      if !CanHide(width, height, |data|) then [Status("Error: " + TooSmall), Finished(false, TooSmall)]
      else if Embeds(width, height, data) && saved then
        [Status("Hiding data in image..."), Progress(100), Status("Files successfully hidden in image"), Finished(true, outputPath)]
      else [Status("Hiding data in image..."), Progress(100), Status("Failed to hide files in image"), Finished(false, OperationFailed)]
  }

  /** The whole trace of `_hide_files` on a width × height image, `saved`
      telling whether writing the output image succeeds. */
  function HideTrace(j: Json, c: Crypto, files: seq<InputFile>, password: Option<string>, salt: seq<byte>, iv: Block,
                     width: nat, height: nat, saved: bool, outputPath: string): seq<Event>
    requires |salt| == SaltSize
  {
    var pl := HidePayload(j, c, files, password, salt, iv);
    pl.events + HideEnd(pl.data, width, height, saved, outputPath)
  }

  /** Preparing, combining and encrypting (invisiovault.py:282-302). */
  method BuildPayload(j: Json, c: Crypto, files: seq<InputFile>, password: Option<string>, salt: seq<byte>, iv: Block)
    returns (events: seq<Event>, data: Result<seq<byte>>)
    requires |salt| == SaltSize
    ensures Payload(events, data) == HidePayload(j, c, files, password, salt, iv)
  {
    var records;
    events, records := PrepareRecords(j, c, files, salt, iv);
    if records.Err? {
      return events, Err(records.message);
    }
    data := Pack(records.value);
    if data.Ok? && HasPassword(password) {
      events := events + [Status("Encrypting data...")];
      data := Ok(Encrypt(c, data.value, password.value, salt, iv));
    }
  }

  /** `_hide_files` (invisiovault.py:275-322) on a decoded carrier image. */
  method HideFiles(carrier: Carrier, j: Json, c: Crypto, files: seq<InputFile>, password: Option<string>,
                   salt: seq<byte>, iv: Block, saved: bool, outputPath: string) returns (events: seq<Event>)
    requires carrier.Valid() && |salt| == SaltSize
    modifies carrier.pixels
    ensures events == HideTrace(j, c, files, password, salt, iv, carrier.Width(), carrier.Height(), saved, outputPath)
    ensures var d := HidePayload(j, c, files, password, salt, iv).data;
      if d.Ok? && Embeds(carrier.Width(), carrier.Height(), d.value)
      then carrier.Channels() == Embedded(old(carrier.Channels()), PayloadBits(d.value))
      else unchanged(carrier.pixels)
  {
    var payload;
    events, payload := BuildPayload(j, c, files, password, salt, iv);
    if payload.Err? {
      return Failure(events, payload.message);
    }
    var data := payload.value;
    if !carrier.CanHideData(|data|) {
      return Failure(events, TooSmall);
    }
    events := events + [Status("Hiding data in image...")];
    var ok := carrier.HideData(data);
    events := events + [Progress(100)];
    if ok && saved {
      events := events + [Status("Files successfully hidden in image"), Finished(true, outputPath)];
    } else {
      events := events + [Status("Failed to hide files in image"), Finished(false, OperationFailed)];
    }
  }

  // ---------------------------------------------------------------------
  // Properties of the hide run

  /** The last progress the first k of n steps report (0 before the first). */
  function Reached(k: nat, n: nat): (r: nat)
    requires k <= n
    ensures r <= 50
  {
    if k == 0 then 0 else Percent(k, n)
  }

  lemma ReachedMonotone(k: nat, n: nat)
    requires 0 < k <= n
    ensures Reached(k - 1, n) <= Reached(k, n)
  {
    if k > 1 {
      PercentMonotone(k - 1, k, n);
    }
  }

  /** The preparation loop never finishes the run, and its progress rises
      from 0 to at most k·50/n. */
  lemma {:induction false} PrepareAllShape(j: Json, c: Crypto, files: seq<InputFile>, k: nat, salt: seq<byte>, iv: Block)
    requires k <= |files| && |salt| == SaltSize
    ensures var ev := PrepareAll(j, c, files, k, salt, iv).events;
      NoFinish(ev) && ProgressIn(ev, 0, Reached(k, |files|)) && ProgressSorted(ev)
    decreases k
  {
    if k > 0 {
      var n := |files|;
      PrepareAllShape(j, c, files, k - 1, salt, iv);
      ReachedMonotone(k, n);
      var prev := PrepareAll(j, c, files, k - 1, salt, iv);
      if prev.records.Ok? {
        var step := [Status(PreparingText(k, n, files[k - 1].name))];
        Concat(prev.events, step, 0, Reached(k - 1, n), Reached(k, n));
        Concat(prev.events + step, [Progress(Percent(k, n))], 0, Reached(k, n), Reached(k, n));
      }
    }
  }

  /** The preparation loop succeeds exactly when every file prepares. */
  lemma {:induction false} PrepareAllOk(j: Json, c: Crypto, files: seq<InputFile>, k: nat, salt: seq<byte>, iv: Block)
    requires k <= |files| && |salt| == SaltSize
    ensures PrepareAll(j, c, files, k, salt, iv).records.Ok? <==> forall i | 0 <= i < k :: PrepareOne(j, c, files[i], salt, iv).Ok?
    decreases k
  {
    if k > 0 {
      PrepareAllOk(j, c, files, k - 1, salt, iv);
      assert (forall i | 0 <= i < k :: PrepareOne(j, c, files[i], salt, iv).Ok?) <==>
        (forall i | 0 <= i < k - 1 :: PrepareOne(j, c, files[i], salt, iv).Ok?) && PrepareOne(j, c, files[k - 1], salt, iv).Ok?;
    }
  }

  /** A successful preparation loop yields one record per file, each what
      `prepare_file_data` made of it. */
  lemma {:induction false} PrepareAllRecords(j: Json, c: Crypto, files: seq<InputFile>, k: nat, salt: seq<byte>, iv: Block)
    requires k <= |files| && |salt| == SaltSize
    ensures var r := PrepareAll(j, c, files, k, salt, iv).records;
      r.Ok? ==> |r.value| == k && forall i | 0 <= i < k :: PrepareOne(j, c, files[i], salt, iv) == Ok(r.value[i])
    decreases k
  {
    if k > 0 {
      PrepareAllRecords(j, c, files, k - 1, salt, iv);
    }
  }

  /** A failed preparation loop carries the error of the first file that
      does not prepare. */
  lemma {:induction false} PrepareAllErr(j: Json, c: Crypto, files: seq<InputFile>, k: nat, salt: seq<byte>, iv: Block)
    requires k <= |files| && |salt| == SaltSize
    ensures var r := PrepareAll(j, c, files, k, salt, iv).records;
      r.Err? ==> exists i | 0 <= i < k :: PrepareOne(j, c, files[i], salt, iv) == Err(r.message) &&
                   forall i2 | 0 <= i2 < i :: PrepareOne(j, c, files[i2], salt, iv).Ok?
    decreases k
  {
    if k > 0 {
      PrepareAllErr(j, c, files, k - 1, salt, iv);
      PrepareAllOk(j, c, files, k - 1, salt, iv);
    }
  }

  /** The preparation loop yields one record per file exactly when every
      file prepares, and otherwise the error of the first file that does not. */
  lemma PrepareAllResult(j: Json, c: Crypto, files: seq<InputFile>, k: nat, salt: seq<byte>, iv: Block)
    requires k <= |files| && |salt| == SaltSize
    ensures var r := PrepareAll(j, c, files, k, salt, iv).records;
      (r.Ok? <==> forall i | 0 <= i < k :: PrepareOne(j, c, files[i], salt, iv).Ok?) &&
      (r.Ok? ==> |r.value| == k && forall i | 0 <= i < k :: PrepareOne(j, c, files[i], salt, iv) == Ok(r.value[i])) &&
      (r.Err? ==> exists i | 0 <= i < k :: PrepareOne(j, c, files[i], salt, iv) == Err(r.message) &&
                    forall i2 | 0 <= i2 < i :: PrepareOne(j, c, files[i2], salt, iv).Ok?)
  {
    PrepareAllOk(j, c, files, k, salt, iv);
    PrepareAllRecords(j, c, files, k, salt, iv);
    PrepareAllErr(j, c, files, k, salt, iv);
  }

  /** Up to the capacity check the hide run reports only preparation
      progress, from 0 to at most 50. */
  lemma HidePayloadShape(j: Json, c: Crypto, files: seq<InputFile>, password: Option<string>, salt: seq<byte>, iv: Block)
    requires |salt| == SaltSize
    ensures var ev := HidePayload(j, c, files, password, salt, iv).events;
      NoFinish(ev) && ProgressIn(ev, 0, 50) && ProgressSorted(ev)
  {
    PrepareAllShape(j, c, files, |files|, salt, iv);
    var p := PrepareAll(j, c, files, |files|, salt, iv);
    var top := Reached(|files|, |files|);
    Concat(p.events, [Status("Encrypting data...")], 0, top, 50);
    Concat(p.events, [], 0, top, 50);
  }

  /** The hide trace is well formed: progress 0..50 while preparing, then
      100 once the image is written to, and one final `Finished`. */
  lemma HideWellFormed(j: Json, c: Crypto, files: seq<InputFile>, password: Option<string>, salt: seq<byte>, iv: Block,
                       width: nat, height: nat, saved: bool, outputPath: string)
    requires |salt| == SaltSize
    ensures WellFormed(HideTrace(j, c, files, password, salt, iv, width, height, saved, outputPath))
  {
    HidePayloadShape(j, c, files, password, salt, iv);
    var pl := HidePayload(j, c, files, password, salt, iv);
    var last := HideEnd(pl.data, width, height, saved, outputPath);
    EndsWell(pl.events, last, 0, 50);
  }

  /** How the hide run ends: in success, with the output path, exactly when
      every file prepared, the archive packed, the prefixed payload fits the
      image and the image was saved; otherwise with the first error met. */
  lemma HideOutcome(j: Json, c: Crypto, files: seq<InputFile>, password: Option<string>, salt: seq<byte>, iv: Block,
                    width: nat, height: nat, saved: bool, outputPath: string)
    requires |salt| == SaltSize
    ensures var t := HideTrace(j, c, files, password, salt, iv, width, height, saved, outputPath);
      var d := HidePayload(j, c, files, password, salt, iv).data;
      |t| >= 2 &&
      (t[|t| - 1] == Finished(true, outputPath) <==> d.Ok? && Embeds(width, height, d.value) && saved) &&
      (d.Err? ==> t[|t| - 1] == Finished(false, d.message)) &&
      (d.Ok? && !CanHide(width, height, |d.value|) ==> t[|t| - 1] == Finished(false, TooSmall)) &&
      (d.Ok? && CanHide(width, height, |d.value|) && !(Embeds(width, height, d.value) && saved) ==>
         t[|t| - 1] == Finished(false, OperationFailed))
  {
  }

  /** The two capacity checks disagree: the run checks room for the payload
      and its 4-byte length, `hide_data_in_image` then checks room for the
      prefixed payload and another 4 bytes. A payload between the two is
      accepted, reported at 100%, and ends in "Operation failed" rather than
      "too small", even though its bits would fit. */
  lemma HideCapacityGap(j: Json, c: Crypto, files: seq<InputFile>, password: Option<string>, salt: seq<byte>, iv: Block,
                        width: nat, height: nat, saved: bool, outputPath: string)
    requires |salt| == SaltSize
    requires var d := HidePayload(j, c, files, password, salt, iv).data;
      d.Ok? && 8 * (|d.value| + 4) <= 3 * (width * height) < 8 * (|d.value| + 8)
    ensures var t := HideTrace(j, c, files, password, salt, iv, width, height, saved, outputPath);
      |t| >= 3 && t[|t| - 3] == Progress(100) && t[|t| - 1] == Finished(false, OperationFailed)
  {
  }

  /** An instance of the gap: hiding no files without a password packs the
      4-byte count alone, which with its length takes 64 of the 66 channels
      of a 22 × 1 image, and still the run fails. */
  lemma HideCapacityGapExample(j: Json, c: Crypto, salt: seq<byte>, iv: Block, outputPath: string)
    requires |salt| == SaltSize
    ensures HideTrace(j, c, [], None, salt, iv, 22, 1, true, outputPath) ==
      [Status("Hiding data in image..."), Progress(100), Status("Failed to hide files in image"), Finished(false, OperationFailed)]
  {
    assert Be32(0) + Frames([]) == Be32(0);
    HideCapacityGap(j, c, [], None, salt, iv, 22, 1, true, outputPath);
  }

  // ---------------------------------------------------------------------
  // _extract_files

  /** `os.path.join`, `os.path.splitext`, `os.path.basename`, and the text of
      the error writing a file raises (None when the write succeeds). */
  datatype Env = Env(join: (string, string) -> string, splitext: string -> (string, string),
                     basename: string -> string, writeError: string -> Option<string>)

  /** The files that exist, by path: `os.path.exists` is membership. */
  type Disk = map<string, seq<byte>>

  /** `f"{base}_{counter}{ext}"` */
  function Candidate(base: string, ext: string, k: nat): string
  {
    base + "_" + Dec(k) + ext
  }

  /** Distinct counters give distinct names. */
  lemma CandidateInjective(base: string, ext: string, k: nat, k2: nat)
    ensures Candidate(base, ext, k) == Candidate(base, ext, k2) <==> k == k2
  {
    var s, s2 := Candidate(base, ext, k), Candidate(base, ext, k2);
    if s == s2 {
      var p := |base| + 1;
      assert s[p..|s| - |ext|] == Dec(k);
      assert s2[p..|s2| - |ext|] == Dec(k2);
      DecInjective(k, k2);
    }
  }

  /** The names tried before counter k. */
  ghost function Tried(base: string, ext: string, k: nat): set<string>
  {
    set k2 | 1 <= k2 < k :: Candidate(base, ext, k2)
  }

  /** Trying a taken name leaves fewer taken names untried. */
  lemma TriedGrows(disk: Disk, base: string, ext: string, k: nat)
    requires k >= 1 && Candidate(base, ext, k) in disk
    ensures |disk.Keys - Tried(base, ext, k + 1)| < |disk.Keys - Tried(base, ext, k)|
  {
    var x := Candidate(base, ext, k);
    forall k2 | 1 <= k2 < k
      ensures Candidate(base, ext, k2) != x
    {
      CandidateInjective(base, ext, k2, k);
    }
    assert x in Tried(base, ext, k + 1);
    assert Tried(base, ext, k + 1) == Tried(base, ext, k) + {x};
    var a := disk.Keys - Tried(base, ext, k);
    assert x in a;
    assert disk.Keys - Tried(base, ext, k + 1) == a - {x};
    assert a == (a - {x}) + {x};
  }

  /** The first counter from k on whose name is free. */
  function FreeFrom(disk: Disk, base: string, ext: string, k: nat): (r: nat)
    requires k >= 1
    ensures r >= k && Candidate(base, ext, r) !in disk
    ensures forall k2 | k <= k2 < r :: Candidate(base, ext, k2) in disk
    decreases |disk.Keys - Tried(base, ext, k)|
  {
    if Candidate(base, ext, k) !in disk then k
    else
      TriedGrows(disk, base, ext, k);
      FreeFrom(disk, base, ext, k + 1)
  }

  /** The unique-name rule of `_extract_files`: the joined path when it is
      free, otherwise `base_k ext` for the least k >= 1 that is free. */
  function UniqueName(disk: Disk, first: string, base: string, ext: string): (r: string)
    ensures r !in disk
    ensures first !in disk ==> r == first
    ensures first in disk ==>
      exists k :: k >= 1 && r == Candidate(base, ext, k) && (forall k2 | 1 <= k2 < k :: Candidate(base, ext, k2) in disk)
  {
    if first !in disk then first else Candidate(base, ext, FreeFrom(disk, base, ext, 1))
  }

  /** Where the counter loop stands: before the first pass it holds the
      joined path; after a pass it holds the last name tried, and the free
      counter it will reach is the least free one from 1 on. */
  ghost predicate Searching(disk: Disk, first: string, base: string, ext: string, path: string, counter: nat)
  {
    counter >= 1 &&
    (counter == 1 ==> path == first) &&
    (counter > 1 ==> first in disk && path == Candidate(base, ext, counter - 1) &&
                     FreeFrom(disk, base, ext, counter - 1) == FreeFrom(disk, base, ext, 1))
  }

  /** What the counter loop has left to try: the taken names not tried yet,
      and one more before the first pass. */
  ghost function Untried(disk: Disk, base: string, ext: string, counter: nat): nat
    requires counter >= 1
  {
    |disk.Keys - Tried(base, ext, counter - 1)| + (if counter == 1 then 1 else 0)
  }

  /** A pass from a taken path tries the next name and leaves less to try. */
  lemma SearchStep(disk: Disk, first: string, base: string, ext: string, path: string, counter: nat)
    requires Searching(disk, first, base, ext, path, counter) && path in disk
    ensures Searching(disk, first, base, ext, Candidate(base, ext, counter), counter + 1)
    ensures Untried(disk, base, ext, counter + 1) < Untried(disk, base, ext, counter)
  {
    if counter > 1 {
      TriedGrows(disk, base, ext, counter - 1);
    } else {
      assert Tried(base, ext, 0) == Tried(base, ext, 1);
    }
  }

  /** The loop stops at the first free path, which is the unique name. */
  lemma SearchDone(disk: Disk, first: string, base: string, ext: string, path: string, counter: nat)
    requires Searching(disk, first, base, ext, path, counter) && path !in disk
    ensures path == UniqueName(disk, first, base, ext)
  {
  }

  /** The counter loop (invisiovault.py:374-378). */
  method UniquePath(disk: Disk, first: string, base: string, ext: string) returns (path: string)
    ensures path == UniqueName(disk, first, base, ext)
  {
    path := first;
    var counter := 1;
    while path in disk
      invariant Searching(disk, first, base, ext, path, counter)
      decreases Untried(disk, base, ext, counter)
    {
      SearchStep(disk, first, base, ext, path, counter);
      path := Candidate(base, ext, counter);
      counter := counter + 1;
    }
    SearchDone(disk, first, base, ext, path, counter);
  }

  /** A file written by the extract run: where, and what. */
  datatype Saved = Saved(path: string, content: seq<byte>)

  /** The body of the `try` for one record: read it back unencrypted, take
      its file name (KeyError when missing), join it to the output
      directory, make it unique, and write the content. */
  function SaveRecord(j: Json, c: Crypto, env: Env, dir: string, disk: Disk, rec: seq<byte>): Result<Saved>
  {
    match ExtractFileData(j, c, rec, None)
    case Err(e) => Err(e)
    case Ok(fr) =>
      match fr.metadata.filename
      case None => Err(MissingFilename)
      case Some(name) =>
        var first := env.join(dir, name);
        var parts := env.splitext(first);
        var path := UniqueName(disk, first, parts.0, parts.1);
        match env.writeError(path)
        case Some(e) => Err(e)
        case None => Ok(Saved(path, fr.content))
  }

  /** One round of the extraction loop (invisiovault.py:369-387). */
  method SaveOne(j: Json, c: Crypto, env: Env, dir: string, disk: Disk, rec: seq<byte>) returns (r: Result<Saved>)
    ensures r == SaveRecord(j, c, env, dir, disk, rec)
  {
    var fr := ExtractFileData(j, c, rec, None);
    if fr.Err? {
      return Err(fr.message);
    }
    if fr.value.metadata.filename.None? {
      return Err(MissingFilename);
    }
    var first := env.join(dir, fr.value.metadata.filename.value);
    var parts := env.splitext(first);
    var path := UniquePath(disk, first, parts.0, parts.1);
    var e := env.writeError(path);
    if e.Some? {
      return Err(e.value);
    }
    return Ok(Saved(path, fr.value.content));
  }

  /** The events, the files and the paths written so far. */
  datatype Run = Run(events: seq<Event>, disk: Disk, paths: seq<string>)

  /** Round i of the extraction loop after `prev`: the file saved or the
      error reported, then the progress 50 + i·50/num. */
  function Absorb(env: Env, num: nat, i: nat, prev: Run, outcome: Result<Saved>): Run
    requires 0 < i <= num
  {
    var progress := Progress(50 + Percent(i, num));
    match outcome
    case Err(e) => Run(prev.events + [Status("Error extracting file " + Dec(i) + ": " + e), progress], prev.disk, prev.paths)
    case Ok(s) =>
      Run(prev.events + [Status("Extracted: " + env.basename(s.path)), progress],
          prev.disk[s.path := s.content], prev.paths + [s.path])
  }

  /** The extraction loop from round i + 1 on, over the records still to
      visit, after the run so far. */
  function ExtractList(j: Json, c: Crypto, env: Env, dir: string, num: nat, i: nat, records: seq<seq<byte>>, run: Run): Run
    requires i + |records| <= num
    decreases |records|
  {
    if |records| == 0 then run
    else
      var next := Absorb(env, num, i + 1, run, SaveRecord(j, c, env, dir, run.disk, records[0]));
      ExtractList(j, c, env, dir, num, i + 1, records[1..], next)
  }

  /** The events from the extracted bytes up to progress 50, and the archive
      they hold or the error that ends the run: none found, a password
      needed, or one that fails to decrypt. */
  function Unwrap(c: Crypto, data: seq<byte>, password: Option<string>): Payload
  {
    if |data| == 0 then Payload([], Err(NoData))
    else if StartsWith(data, Header) then
      if !HasPassword(password) then Payload([Progress(30)], Err(NeedPassword))
      else
        match Decrypt(c, data, password.value)
        case Err(_) => Payload([Progress(30), Status("Decrypting data...")], Err(WrongPassword))
        case Ok(plain) => Payload([Progress(30), Status("Decrypting data..."), Progress(50)], Ok(plain))
    else Payload([Progress(30), Progress(50)], Ok(data))
  }

  /** The whole extract run on the bytes `extract_data_from_image` returned. */
  function ExtractRun(j: Json, c: Crypto, env: Env, dir: string, extracted: seq<byte>, password: Option<string>, disk: Disk): Run
  {
    var head := [Status("Extracting data from image...")];
    var u := Unwrap(c, extracted, password);
    match u.data
    case Err(e) => Run(Failure(head + u.events, e), disk, [])
    case Ok(data) =>
      var num := DeclaredCount(data);
      UnpackBound(data);
      var r := ExtractList(j, c, env, dir, num, 0, Unpack(data), Run([], disk, []));
      Run(head + u.events + [Status("Found " + Dec(num) + " hidden files")] + r.events +
          [Status("Successfully extracted " + Dec(|r.paths|) + " files"), Finished(true, JoinLines(r.paths))],
          r.disk, r.paths)
  }

  /** The body of the record loop's `try` and the progress after it. */
  method ExtractOne(j: Json, c: Crypto, env: Env, dir: string, num: nat, i: nat, rec: seq<byte>,
                    events: seq<Event>, disk: Disk, paths: seq<string>)
    returns (events': seq<Event>, disk': Disk, paths': seq<string>)
    requires 0 < i <= num
    ensures Run(events', disk', paths') == Absorb(env, num, i, Run(events, disk, paths), SaveRecord(j, c, env, dir, disk, rec))
  {
    events', disk', paths' := events, disk, paths;
    var saved := SaveOne(j, c, env, dir, disk, rec);
    if saved.Ok? {
      disk' := disk'[saved.value.path := saved.value.content];
      paths' := paths' + [saved.value.path];
      events' := events' + [Status("Extracted: " + env.basename(saved.value.path))];
    } else {
      events' := events' + [Status("Error extracting file " + Dec(i) + ": " + saved.message)];
    }
    events' := events' + [Progress(50 + Percent(i, num))];
  }

  /** Reading one frame at the offset (invisiovault.py:360-366): its length,
      its record, and the offset past it. */
  method ReadFrame(data: seq<byte>, offset: nat, ghost i: nat, ghost num: nat) returns (rec: seq<byte>, offset': nat)
    requires offset < |data| && i < num
    ensures RecordsIn(Drop(data, offset), i, num) == [rec] + RecordsIn(Drop(data, offset'), i + 1, num)
  {
    var size := BeValue(Slice(data, offset, offset + 4));
    WalkStep(data, offset, i, num, size);
    rec := Slice(data, offset + 4, offset + 4 + size);
    offset' := offset + 4 + size;
  }

  /** One record of the run: the run over a non-empty list absorbs its
      first record and goes on with the rest. */
  lemma ExtractListStep(j: Json, c: Crypto, env: Env, dir: string, num: nat, i: nat, rec: seq<byte>, rest: seq<seq<byte>>,
                        events: seq<Event>, disk: Disk, paths: seq<string>)
    requires i + 1 + |rest| <= num
    ensures ExtractList(j, c, env, dir, num, i, [rec] + rest, Run(events, disk, paths)) ==
      ExtractList(j, c, env, dir, num, i + 1, rest, Absorb(env, num, i + 1, Run(events, disk, paths), SaveRecord(j, c, env, dir, disk, rec)))
  {
    assert ([rec] + rest)[1..] == rest;
  }

  /** The run over no records leaves the accumulated run as it is. */
  lemma ExtractListEnd(j: Json, c: Crypto, env: Env, dir: string, num: nat, i: nat, records: seq<seq<byte>>, run: Run)
    requires i + |records| <= num && records == []
    ensures ExtractList(j, c, env, dir, num, i, records, run) == run
  {
  }

  /** One pass of the record loop of `_extract_files`: read the frame at the
      offset, save its record, and step past it. */
  method ExtractStep(j: Json, c: Crypto, env: Env, dir: string, data: seq<byte>, num: nat, i: nat, offset: nat,
                     events: seq<Event>, disk: Disk, paths: seq<string>, ghost final: Run)
    returns (i': nat, offset': nat, events': seq<Event>, disk': Disk, paths': seq<string>)
    requires offset < |data| && i < num && i + |RecordsIn(Drop(data, offset), i, num)| <= num
    requires ExtractList(j, c, env, dir, num, i, RecordsIn(Drop(data, offset), i, num), Run(events, disk, paths)) == final
    ensures i' == i + 1 && i' + |RecordsIn(Drop(data, offset'), i', num)| <= num
    ensures ExtractList(j, c, env, dir, num, i', RecordsIn(Drop(data, offset'), i', num), Run(events', disk', paths')) == final
  {
    var rec;
    rec, offset' := ReadFrame(data, offset, i, num);
    RecordsInBound(Drop(data, offset'), i + 1, num);
    ExtractListStep(j, c, env, dir, num, i, rec, RecordsIn(Drop(data, offset'), i + 1, num), events, disk, paths);
    events', disk', paths' := ExtractOne(j, c, env, dir, num, i + 1, rec, events, disk, paths);
    i' := i + 1;
  }

  /** The record loop of `_extract_files` (invisiovault.py:353-389), walking
      the archive by offset. */
  method ExtractAll(j: Json, c: Crypto, env: Env, dir: string, data: seq<byte>, num: nat, disk: Disk)
    returns (events: seq<Event>, disk': Disk, paths: seq<string>)
    requires num == DeclaredCount(data)
    ensures |Unpack(data)| <= num
    ensures Run(events, disk', paths) == ExtractList(j, c, env, dir, num, 0, Unpack(data), Run([], disk, []))
  {
    UnpackBound(data);
    ghost var final := ExtractList(j, c, env, dir, num, 0, Unpack(data), Run([], disk, []));
    events, disk', paths := [], disk, [];
    var offset: nat := 4;
    var i: nat := 0;
    while i < num
      invariant i <= num && i + |RecordsIn(Drop(data, offset), i, num)| <= num
      invariant ExtractList(j, c, env, dir, num, i, RecordsIn(Drop(data, offset), i, num), Run(events, disk', paths)) == final
    {
      if offset >= |data| {
        break;
      }
      i, offset, events, disk', paths := ExtractStep(j, c, env, dir, data, num, i, offset, events, disk', paths, final);
    }
    WalkEnd(data, offset, i, num);
    ExtractListEnd(j, c, env, dir, num, i, RecordsIn(Drop(data, offset), i, num), Run(events, disk', paths));
  }

  /** The steps of `_extract_files` between extracting the bytes and
      reading the count (invisiovault.py:333-346). */
  method UnwrapData(c: Crypto, data: seq<byte>, password: Option<string>) returns (events: seq<Event>, r: Result<seq<byte>>)
    ensures Payload(events, r) == Unwrap(c, data, password)
  {
    if |data| == 0 {
      return [], Err(NoData);
    }
    events := [Progress(30)];
    r := Ok(data);
    if StartsWith(data, Header) {
      if !HasPassword(password) {
        return events, Err(NeedPassword);
      }
      events := events + [Status("Decrypting data...")];
      var plain := Decrypt(c, data, password.value);
      if plain.Err? {
        return events, Err(WrongPassword);
      }
      r := plain;
    }
    events := events + [Progress(50)];
  }

  /** `_extract_files` (invisiovault.py:324-396) on a decoded carrier image. */
  method ExtractFiles(carrier: Carrier, j: Json, c: Crypto, env: Env, dir: string, password: Option<string>, disk: Disk)
    returns (events: seq<Event>, disk': Disk)
    requires carrier.Valid()
    ensures var r := ExtractRun(j, c, env, dir, ExtractedFrom(carrier.Scan()), password, disk);
      events == r.events && disk' == r.disk
  {
    events := [Status("Extracting data from image...")];
    var extracted := carrier.ExtractData();
    var unwrapEvents, plain := UnwrapData(c, extracted, password);
    events := events + unwrapEvents;
    if plain.Err? {
      return Failure(events, plain.message), disk;
    }
    var data := plain.value;
    var num := BeValue(Slice(data, 0, 4));
    events := events + [Status("Found " + Dec(num) + " hidden files")];
    var loopEvents, paths;
    loopEvents, disk', paths := ExtractAll(j, c, env, dir, data, num, disk);
    events := events + loopEvents +
      [Status("Successfully extracted " + Dec(|paths|) + " files"), Finished(true, JoinLines(paths))];
  }

  // ---------------------------------------------------------------------
  // Properties of the extract run

  /** `evs` continues `prev` with events that never finish the run and
      report sorted progress from lo to at most 100. */
  predicate Continues(prev: seq<Event>, evs: seq<Event>, lo: int)
  {
    |prev| <= |evs| && evs[..|prev|] == prev &&
    NoFinish(evs[|prev|..]) && ProgressIn(evs[|prev|..], lo, 100) && ProgressSorted(evs[|prev|..])
  }

  /** Each round of the extraction loop adds a status and the progress
      50 + i·50/num. */
  lemma AbsorbEvents(env: Env, num: nat, i: nat, prev: Run, outcome: Result<Saved>)
    requires 0 < i <= num
    ensures var evs := Absorb(env, num, i, prev, outcome).events;
      |evs| == |prev.events| + 2 && evs[..|prev.events|] == prev.events &&
      evs[|prev.events|].Status? && evs[|prev.events| + 1] == Progress(50 + Percent(i, num))
  {
  }

  /** A round's two events followed by a continuation from its progress
      continue the trace before the round. */
  lemma ContinuesStep(prev: seq<Event>, next: seq<Event>, evs: seq<Event>, lo: int, mid: int)
    requires lo <= mid <= 100
    requires |next| == |prev| + 2 && next[..|prev|] == prev && next[|prev|].Status? && next[|prev| + 1] == Progress(mid)
    requires Continues(next, evs, mid)
    ensures Continues(prev, evs, lo)
  {
    var step, later := next[|prev|..], evs[|next|..];
    assert step == [next[|prev|], Progress(mid)];
    assert evs == prev + step + later;
    assert evs[..|prev|] == prev;
    assert evs[|prev|..] == step + later;
    Concat(step, later, lo, mid, 100);
  }

  /** The extraction loop only appends to the trace, never finishes the
      run, and reports progress rising from 50 + i·50/num to at most 100. */
  lemma {:induction false} ExtractListShape(j: Json, c: Crypto, env: Env, dir: string, num: nat, i: nat,
                                            records: seq<seq<byte>>, run: Run)
    requires i + |records| <= num
    ensures Continues(run.events, ExtractList(j, c, env, dir, num, i, records, run).events, 50 + Reached(i, num))
    decreases |records|
  {
    var evs := ExtractList(j, c, env, dir, num, i, records, run).events;
    if |records| == 0 {
      assert evs[|run.events|..] == [];
    } else {
      var next := Absorb(env, num, i + 1, run, SaveRecord(j, c, env, dir, run.disk, records[0]));
      ExtractListShape(j, c, env, dir, num, i + 1, records[1..], next);
      AbsorbEvents(env, num, i + 1, run, SaveRecord(j, c, env, dir, run.disk, records[0]));
      ReachedMonotone(i + 1, num);
      ContinuesStep(run.events, next.events, evs, 50 + Reached(i, num), 50 + Reached(i + 1, num));
    }
  }

  /** `after` continues `before` without overwriting: every file on the
      disk keeps its bytes, the paths reported are appended, each of them is
      new on the disk, they differ from each other, and the disk gains no
      other file. */
  predicate Keeps(before: Run, after: Run)
  {
    |before.paths| <= |after.paths| && after.paths[..|before.paths|] == before.paths &&
    (forall p | p in before.disk :: p in after.disk && after.disk[p] == before.disk[p]) &&
    (forall a | |before.paths| <= a < |after.paths| :: after.paths[a] !in before.disk && after.paths[a] in after.disk) &&
    (forall a, b | |before.paths| <= a < b < |after.paths| :: after.paths[a] != after.paths[b]) &&
    (forall p | p in after.disk :: p in before.disk || p in after.paths[|before.paths|..])
  }

  /** What a round of the extraction loop does to the disk: a saved file
      goes to a path that was free, and nothing else changes. */
  lemma AbsorbDisk(j: Json, c: Crypto, env: Env, dir: string, num: nat, i: nat, run: Run, rec: seq<byte>)
    requires 0 < i <= num
    ensures var outcome := SaveRecord(j, c, env, dir, run.disk, rec);
      var next := Absorb(env, num, i, run, outcome);
      (outcome.Err? ==> next.disk == run.disk && next.paths == run.paths) &&
      (outcome.Ok? ==> outcome.value.path !in run.disk && next.disk == run.disk[outcome.value.path := outcome.value.content] &&
                       next.paths == run.paths + [outcome.value.path])
  {
  }

  /** Nothing written: the run continues itself. */
  lemma KeepsSame(before: Run, after: Run)
    requires after.disk == before.disk && after.paths == before.paths
    ensures Keeps(before, after)
  {
    assert after.paths[..|before.paths|] == before.paths;
  }

  /** One file written to a free path, then a continuation of that. */
  lemma KeepsSaved(before: Run, next: Run, after: Run, q: string, content: seq<byte>)
    requires q !in before.disk && next.disk == before.disk[q := content] && next.paths == before.paths + [q]
    requires Keeps(next, after)
    ensures Keeps(before, after)
  {
    var n := |before.paths|;
    assert after.paths[..n + 1] == next.paths;
    assert after.paths[n] == q;
    assert after.paths[..n] == before.paths;
    assert after.paths[n..] == [q] + after.paths[n + 1..];
  }

  /** Keeping is transitive. */
  lemma KeepsTrans(a: Run, b: Run, r: Run)
    requires b.disk == a.disk && b.paths == a.paths && Keeps(b, r)
    ensures Keeps(a, r)
  {
  }

  /** The extraction loop never overwrites a file, and reports at most one
      path per record. */
  lemma {:induction false} ExtractListDisk(j: Json, c: Crypto, env: Env, dir: string, num: nat, i: nat,
                                           records: seq<seq<byte>>, run: Run)
    requires i + |records| <= num
    ensures var r := ExtractList(j, c, env, dir, num, i, records, run);
      Keeps(run, r) && |r.paths| <= |run.paths| + |records|
    decreases |records|
  {
    var r := ExtractList(j, c, env, dir, num, i, records, run);
    if |records| == 0 {
      KeepsSame(run, r);
    } else {
      var outcome := SaveRecord(j, c, env, dir, run.disk, records[0]);
      var next := Absorb(env, num, i + 1, run, outcome);
      AbsorbDisk(j, c, env, dir, num, i + 1, run, records[0]);
      ExtractListDisk(j, c, env, dir, num, i + 1, records[1..], next);
      if outcome.Ok? {
        KeepsSaved(run, next, r, outcome.value.path, outcome.value.content);
      } else {
        KeepsTrans(run, next, r);
      }
    }
  }

  /** A record the extraction loop can save: it reads back unencrypted and
      its metadata names a file. */
  predicate Readable(j: Json, c: Crypto, rec: seq<byte>)
  {
    var fr := ExtractFileData(j, c, rec, None);
    fr.Ok? && fr.value.metadata.filename.Some?
  }

  /** The file bytes a record reads back to (none when it does not read). */
  function ContentOf(j: Json, c: Crypto, rec: seq<byte>): seq<byte>
  {
    match ExtractFileData(j, c, rec, None)
    case Ok(fr) => fr.content
    case Err(_) => []
  }

  /** The file bytes of each record, in order. */
  function Contents(j: Json, c: Crypto, records: seq<seq<byte>>): (r: seq<seq<byte>>)
    ensures |r| == |records| && forall a | 0 <= a < |records| :: r[a] == ContentOf(j, c, records[a])
  {
    if |records| == 0 then [] else [ContentOf(j, c, records[0])] + Contents(j, c, records[1..])
  }

  /** `after` reports one new path per entry of `contents`, holding it. */
  predicate Wrote(before: Run, after: Run, contents: seq<seq<byte>>)
  {
    |after.paths| == |before.paths| + |contents| &&
    forall a | 0 <= a < |contents| ::
      after.paths[|before.paths| + a] in after.disk && after.disk[after.paths[|before.paths| + a]] == contents[a]
  }

  lemma WroteNothing(before: Run, after: Run)
    requires after.paths == before.paths
    ensures Wrote(before, after, [])
  {
  }

  /** One file written to a free path, then the rest written without
      overwriting it. */
  lemma WroteStep(before: Run, next: Run, after: Run, q: string, content: seq<byte>, rest: seq<seq<byte>>)
    requires next.disk == before.disk[q := content] && next.paths == before.paths + [q]
    requires Keeps(next, after) && Wrote(next, after, rest)
    ensures Wrote(before, after, [content] + rest)
  {
    var n := |before.paths|;
    var all := [content] + rest;
    assert after.paths[..n + 1] == next.paths;
    assert after.paths[n] == q && q in next.disk;
    forall a | 0 <= a < |all|
      ensures after.paths[n + a] in after.disk && after.disk[after.paths[n + a]] == all[a]
    {
      if a > 0 {
        assert all[a] == rest[a - 1];
        assert n + a == |next.paths| + (a - 1);
      }
    }
  }

  /** When every record reads back and every write succeeds, the
      extraction loop saves each record's file bytes, in order, at a path
      of its own. */
  lemma {:induction false} ExtractListSaved(j: Json, c: Crypto, env: Env, dir: string, num: nat, i: nat,
                                            records: seq<seq<byte>>, run: Run)
    requires i + |records| <= num
    requires forall p :: env.writeError(p).None?
    requires forall a | 0 <= a < |records| :: Readable(j, c, records[a])
    ensures Wrote(run, ExtractList(j, c, env, dir, num, i, records, run), Contents(j, c, records))
    decreases |records|
  {
    var r := ExtractList(j, c, env, dir, num, i, records, run);
    if |records| == 0 {
      WroteNothing(run, r);
    } else {
      var outcome := SaveRecord(j, c, env, dir, run.disk, records[0]);
      var next := Absorb(env, num, i + 1, run, outcome);
      assert Readable(j, c, records[0]);
      AbsorbDisk(j, c, env, dir, num, i + 1, run, records[0]);
      assert outcome.Ok? && outcome.value.content == ContentOf(j, c, records[0]);
      ExtractListDisk(j, c, env, dir, num, i + 1, records[1..], next);
      ExtractListSaved(j, c, env, dir, num, i + 1, records[1..], next);
      WroteStep(run, next, r, outcome.value.path, outcome.value.content, Contents(j, c, records[1..]));
    }
  }

  /** Up to the archive the extract run reports progress 30, then 50,
      and never finishes. */
  lemma UnwrapShape(c: Crypto, data: seq<byte>, password: Option<string>)
    ensures var ev := Unwrap(c, data, password).events;
      NoFinish(ev) && ProgressIn(ev, 0, 50) && ProgressSorted(ev)
  {
  }

  /** The extract trace is well formed: progress 30 and 50 while reading
      the archive, then 50..100 over the records, and one final `Finished`. */
  lemma ExtractWellFormed(j: Json, c: Crypto, env: Env, dir: string, extracted: seq<byte>, password: Option<string>, disk: Disk)
    ensures WellFormed(ExtractRun(j, c, env, dir, extracted, password, disk).events)
  {
    var head := [Status("Extracting data from image...")];
    var u := Unwrap(c, extracted, password);
    UnwrapShape(c, extracted, password);
    Concat(head, u.events, 0, 0, 50);
    match u.data
    case Err(e) =>
      EndsWell(head + u.events, [Status("Error: " + e), Finished(false, e)], 0, 50);
    case Ok(data) =>
      var num := DeclaredCount(data);
      UnpackBound(data);
      var r := ExtractList(j, c, env, dir, num, 0, Unpack(data), Run([], disk, []));
      ExtractListShape(j, c, env, dir, num, 0, Unpack(data), Run([], disk, []));
      assert r.events[|Run([], disk, []).events|..] == r.events;
      var found := [Status("Found " + Dec(num) + " hidden files")];
      Concat(head + u.events, found, 0, 50, 50);
      Concat(head + u.events + found, r.events, 0, 50, 100);
      EndsWell(head + u.events + found + r.events,
               [Status("Successfully extracted " + Dec(|r.paths|) + " files"), Finished(true, JoinLines(r.paths))], 0, 100);
  }

  /** How the extract run ends: with no data, a missing password or one
      that fails to decrypt it fails with that error and writes nothing;
      otherwise it succeeds, listing the paths written one per line. */
  lemma ExtractOutcome(j: Json, c: Crypto, env: Env, dir: string, extracted: seq<byte>, password: Option<string>, disk: Disk)
    ensures var r := ExtractRun(j, c, env, dir, extracted, password, disk);
      var u := Unwrap(c, extracted, password);
      var last := r.events[|r.events| - 1];
      |r.events| >= 2 &&
      (u.data.Ok? <==> |extracted| > 0 && (StartsWith(extracted, Header) ==>
                         HasPassword(password) && Decrypt(c, extracted, password.value).Ok?)) &&
      (u.data.Ok? && !StartsWith(extracted, Header) ==> u.data.value == extracted) &&
      (|extracted| == 0 ==> last == Finished(false, NoData)) &&
      (|extracted| > 0 && StartsWith(extracted, Header) && !HasPassword(password) ==> last == Finished(false, NeedPassword)) &&
      (|extracted| > 0 && StartsWith(extracted, Header) && HasPassword(password) ==>
         (Decrypt(c, extracted, password.value).Err? <==> last == Finished(false, WrongPassword))) &&
      (u.data.Err? ==> r.disk == disk && r.paths == []) &&
      (u.data.Ok? ==> last == Finished(true, JoinLines(r.paths)))
  {
  }

  // ---------------------------------------------------------------------
  // Round trip

  /** An unencrypted archive of fewer than 0x49000000 files does not start
      with the envelope header: its first byte is below 0x49 ('I'). */
  lemma ArchiveUnmarked(n: nat, rest: seq<byte>)
    requires n < 0x4900_0000
    ensures !StartsWith(Be32(n) + rest, Header)
  {
    var a := Be32(n) + rest;
    assert n / 256 < 0x49_0000 && n / 256 / 256 < 0x4900;
    assert a[0] == Be32(n)[0] < 0x49;
    assert |a| >= 12 ==> a[..12][0] != Header[0];
  }

  /** The extract run reads back the archive the hide run packed, with the
      same password (or none): the envelope opens, and an archive without
      one is not mistaken for an envelope. */
  lemma PayloadUnwraps(j: Json, c: Crypto, files: seq<InputFile>, password: Option<string>, salt: seq<byte>, iv: Block)
    requires IsBlockCipher(c) && |salt| == SaltSize && |files| < 0x4900_0000
    requires HidePayload(j, c, files, password, salt, iv).data.Ok?
    ensures var rs := PrepareAll(j, c, files, |files|, salt, iv).records;
      rs.Ok? && Packed(rs.value).Ok? &&
      Unwrap(c, HidePayload(j, c, files, password, salt, iv).data.value, password).data == Ok(Packed(rs.value).value)
  {
    var rs := PrepareAll(j, c, files, |files|, salt, iv).records;
    PrepareAllRecords(j, c, files, |files|, salt, iv);
    var archive := Packed(rs.value).value;
    if HasPassword(password) {
      EncryptLayout(c, archive, password.value, salt, iv);
      DecryptEncrypt(c, archive, password.value, salt, iv);
    } else {
      ArchiveUnmarked(|rs.value|, Frames(rs.value));
    }
  }

  /** A record `prepare_file_data` made reads back unencrypted to the
      file's name and bytes. */
  lemma PreparedReadable(j: Json, c: Crypto, f: InputFile, salt: seq<byte>, iv: Block)
    requires RoundTrips(j) && IsBlockCipher(c) && |salt| == SaltSize
    requires PrepareOne(j, c, f, salt, iv).Ok?
    ensures f.contents.Ok? && Readable(j, c, PrepareOne(j, c, f, salt, iv).value)
    ensures ContentOf(j, c, PrepareOne(j, c, f, salt, iv).value) == f.contents.value
  {
    ExtractPrepared(j, c, f.name, f.contents.value, f.timestamp, None, salt, iv);
  }

  /** Extracting a packed archive of readable records, with every write
      succeeding, saves each record's bytes at a new path of its own,
      overwrites nothing, and ends in success listing those paths. */
  lemma ExtractPacked(j: Json, c: Crypto, env: Env, dir: string, extracted: seq<byte>, password: Option<string>,
                      disk: Disk, rs: seq<seq<byte>>)
    requires Packed(rs).Ok? && Unwrap(c, extracted, password).data == Ok(Packed(rs).value)
    requires forall p :: env.writeError(p).None?
    requires forall a | 0 <= a < |rs| :: Readable(j, c, rs[a])
    ensures var r := ExtractRun(j, c, env, dir, extracted, password, disk);
      |r.events| > 0 && r.events[|r.events| - 1] == Finished(true, JoinLines(r.paths)) &&
      Keeps(Run([], disk, []), r) && Wrote(Run([], disk, []), r, Contents(j, c, rs))
  {
    var archive := Packed(rs).value;
    UnpackPack(rs);
    UnpackBound(archive);
    ExtractListDisk(j, c, env, dir, |rs|, 0, rs, Run([], disk, []));
    ExtractListSaved(j, c, env, dir, |rs|, 0, rs, Run([], disk, []));
  }

  /** Round trip of the two runs: hiding files in an image that holds the
      payload and then extracting from the written channels, with the same
      password (or none) and every write succeeding, ends in success and
      saves every file's bytes, in order, at a path of its own that was
      free, leaving every file already on the disk as it was. */
  lemma HideThenExtract(j: Json, c: Crypto, env: Env, dir: string, files: seq<InputFile>, password: Option<string>,
                        salt: seq<byte>, iv: Block, width: nat, height: nat, channels: seq<byte>, disk: Disk)
    requires RoundTrips(j) && IsBlockCipher(c) && |salt| == SaltSize && |files| < 0x4900_0000
    requires forall p :: env.writeError(p).None?
    requires var d := HidePayload(j, c, files, password, salt, iv).data;
      d.Ok? && Embeds(width, height, d.value) && |channels| == 3 * (width * height)
    ensures var d := HidePayload(j, c, files, password, salt, iv).data.value;
      var r := ExtractRun(j, c, env, dir, ExtractedFrom(Lsbs(Embedded(channels, PayloadBits(d)))), password, disk);
      |r.events| > 0 && r.events[|r.events| - 1] == Finished(true, JoinLines(r.paths)) &&
      |r.paths| == |files| &&
      (forall a | 0 <= a < |files| :: files[a].contents.Ok? && r.paths[a] in r.disk && r.disk[r.paths[a]] == files[a].contents.value) &&
      (forall a, b | 0 <= a < b < |files| :: r.paths[a] != r.paths[b]) &&
      (forall a | 0 <= a < |files| :: r.paths[a] !in disk) &&
      (forall p | p in disk :: p in r.disk && r.disk[p] == disk[p])
  {
    var d := HidePayload(j, c, files, password, salt, iv).data.value;
    EmbedRoundTrip(channels, d);
    PayloadUnwraps(j, c, files, password, salt, iv);
    var rs := PrepareAll(j, c, files, |files|, salt, iv).records.value;
    PrepareAllRecords(j, c, files, |files|, salt, iv);
    forall a | 0 <= a < |rs|
      ensures files[a].contents.Ok? && Readable(j, c, rs[a]) && ContentOf(j, c, rs[a]) == files[a].contents.value
    {
      PreparedReadable(j, c, files[a], salt, iv);
    }
    ExtractPacked(j, c, env, dir, d, password, disk, rs);
    var r := ExtractRun(j, c, env, dir, d, password, disk);
    var contents := Contents(j, c, rs);
    forall a | 0 <= a < |files|
      ensures r.paths[a] in r.disk && r.disk[r.paths[a]] == files[a].contents.value
    {
      assert |Run([], disk, []).paths| + a == a;
      assert contents[a] == ContentOf(j, c, rs[a]);
    }
  }
}
