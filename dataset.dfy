/** `ASVDataset`: builds the three parallel sequences of a split (audio, label,
    system id) from the protocol lines. Audio is an opaque type parameter and
    reading it is a function supplied by the caller; the random draw of
    `np.random.choice` is an index sequence supplied by the caller. */
module Dataset {
  import opened Wrappers
  import opened PyStr
  import opened Protocol

  const Prefix: string := "ASVspoof2019_LA"

  /** `dset_name` */
  function DsetName(isTrain: bool): (n: string)
    ensures isTrain <==> n == "train"
    ensures !isTrain <==> n == "dev"
  {
    if isTrain then "train" else "dev"
  }

  /** `files_dir`, joined from the root, `ASVspoof2019_LA_<split>` and
      `flac`; under a root that neither is empty nor ends in `/`, the path
      `<root>/ASVspoof2019_LA_<split>/flac`. */
  function FilesDir(dataRoot: string, isTrain: bool): (r: string)
    ensures dataRoot != [] && dataRoot[|dataRoot| - 1] != '/' ==>
      r == dataRoot + "/" + (Prefix + "_" + DsetName(isTrain)) + "/" + "flac"
  {
    var name := Prefix + "_" + DsetName(isTrain);
    var d := PathJoin(dataRoot, name);
    assert name[0] == 'A' && name[|name| - 1] != '/';
    assert dataRoot != [] && dataRoot[|dataRoot| - 1] != '/' ==> d == dataRoot + "/" + name && d[|d| - 1] == name[|name| - 1];
    PathJoin(d, "flac")
  }

  /** `protocols_fname`, the file whose lines are parsed: the protocols
      directory (which brings its own `/`) joined with the split's protocol
      file name; under a root that neither is empty nor ends in `/`, the path
      `<root>/ASVspoof2019_LA_protocols/ASVspoof2019.LA.cm.<train.trn or dev.trl>.txt`. */
  function ProtocolsFname(dataRoot: string, isTrain: bool): (r: string)
    ensures dataRoot != [] && dataRoot[|dataRoot| - 1] != '/' ==>
      r == dataRoot + "/" + (Prefix + "_protocols/") + ("ASVspoof2019.LA.cm." + (if isTrain then "train.trn" else "dev.trl") + ".txt")
  {
    var dir := Prefix + "_protocols/";
    var name := "ASVspoof2019.LA.cm." + (if isTrain then "train.trn" else "dev.trl") + ".txt";
    var d := PathJoin(dataRoot, dir);
    assert dir[0] == 'A' && name[0] == 'A';
    assert dataRoot != [] && dataRoot[|dataRoot| - 1] != '/' ==> d == dataRoot + "/" + dir && d[|d| - 1] == '/';
    PathJoin(d, name)
  }

  /** One element of `data`: audio, label, system id. */
  datatype Sample<Audio> = Sample(x: Audio, y: real, sysId: int)

  /** Why construction aborts: the parse raised, `np.random.choice` raised
      (empty population or negative size), `soundfile.read` raised on a
      path, unpacking `zip(*data)` into three names raised on empty data,
      or the transform raised on some audio. */
  datatype InitError =
    | ParseFailed(cause: ParseError)
    | ChoiceFailed
    | ReadFailed(path: string)
    | UnpackFailed
    | TransformFailed

  /** `read_file`: the audio at the record's path, the key as a float and
      the system id. `readAudio` stands for `soundfile.read` and yields
      `None` where that raises. */
  function ReadFile<Audio>(readAudio: string -> Option<Audio>, meta: ASVFile): (r: Result<Sample<Audio>, InitError>)
    ensures r.Success? <==> readAudio(meta.fileName).Some?
    ensures r.Success? ==> r.value.x == readAudio(meta.fileName).value
    ensures r.Success? ==> r.value.y == meta.key as real && r.value.sysId == meta.sysId
    ensures r.Failure? ==> r.error == ReadFailed(meta.fileName)
  {
    match readAudio(meta.fileName)
    case None => Failure(ReadFailed(meta.fileName))
    case Some(x) => Success(Sample(x, meta.key as real, meta.sysId))
  }

  /** `list(map(self.read_file, self.files_meta))`: one sample per record,
      in order, labelled with the record's key and system id; the first
      unreadable path aborts. */
  function ReadAll<Audio>(readAudio: string -> Option<Audio>, metas: seq<ASVFile>): (r: Result<seq<Sample<Audio>>, InitError>)
    ensures r.Success? <==> forall i :: 0 <= i < |metas| ==> readAudio(metas[i].fileName).Some?
    ensures r.Success? ==> |r.value| == |metas|
    ensures r.Success? ==> forall i :: 0 <= i < |metas| ==>
      r.value[i] == Sample(readAudio(metas[i].fileName).value, metas[i].key as real, metas[i].sysId)
    ensures r.Failure? ==>
      exists i :: 0 <= i < |metas| && readAudio(metas[i].fileName).None? && r.error == ReadFailed(metas[i].fileName) &&
        (forall j :: 0 <= j < i ==> readAudio(metas[j].fileName).Some?)
  {
    var r := MapResult(m => ReadFile(readAudio, m), metas);
    assert forall i :: 0 <= i < |metas| ==> (ReadFile(readAudio, metas[i]).Success? <==> readAudio(metas[i].fileName).Some?);
    r
  }

  /** `if sample_size:`: `None` and `0` both mean "no resampling", and
      every other size, negative ones included, resamples. */
  function Truthy(sampleSize: Option<int>): (t: bool)
    ensures !t <==> sampleSize == None || sampleSize == Some(0)
    ensures t ==> sampleSize.Some?
  {
    sampleSize.Some? && sampleSize.value != 0
  }

  /** What `np.random.choice(n, size=(k,), replace=True)` returns: `k`
      indices, each below `n`, repeats allowed. */
  function DrawFits(selectIdx: seq<int>, k: int, n: int): (b: bool)
    ensures b ==> |selectIdx| == k && forall y :: y in selectIdx ==> 0 <= y < n
    ensures b && k > 0 ==> n > 0
  {
    assert |selectIdx| > 0 ==> selectIdx[0] in selectIdx;
    |selectIdx| == k && forall j :: 0 <= j < |selectIdx| ==> 0 <= selectIdx[j] < n
  }

  /** The supplied draw is what the call would return whenever the call
      succeeds (a positive size from a non-empty population). */
  function DrawAvailable(sampleSize: Option<int>, selectIdx: seq<int>, n: int): (b: bool)
    ensures !Truthy(sampleSize) || sampleSize.value < 0 || n == 0 ==> b
    ensures b && Truthy(sampleSize) && sampleSize.value > 0 && n > 0 ==>
      |selectIdx| == sampleSize.value && forall y :: y in selectIdx ==> 0 <= y < n
  {
    Truthy(sampleSize) && sampleSize.value > 0 && n > 0 ==> DrawFits(selectIdx, sampleSize.value, n)
  }

  /** `[xs[i] for i in idx]` */
  function Select<T>(xs: seq<T>, idx: seq<int>): (r: seq<T>)
    requires forall j :: 0 <= j < |idx| ==> 0 <= idx[j] < |xs|
    ensures |r| == |idx|
    ensures forall j :: 0 <= j < |idx| ==> r[j] == xs[idx[j]]
  {
    seq(|idx|, j requires 0 <= j < |idx| => xs[idx[j]])
  }

  /** `[0, 1, ..., n - 1]` */
  function Range(n: nat): (r: seq<int>)
    ensures |r| == n && forall j :: 0 <= j < n ==> r[j] == j
  {
    seq(n, j => j)
  }

  /** Selecting every index once, in order, keeps the sequence. */
  lemma SelectRange<T>(xs: seq<T>)
    ensures Select(xs, Range(|xs|)) == xs
  {
  }

  /** A selection only draws elements of the original. */
  lemma SelectFromOriginal<T>(xs: seq<T>, idx: seq<int>)
    requires forall j :: 0 <= j < |idx| ==> 0 <= idx[j] < |xs|
    ensures forall y :: y in Select(xs, idx) ==> y in xs
  {
    forall y | y in Select(xs, idx) ensures y in xs {
      var j :| 0 <= j < |idx| && Select(xs, idx)[j] == y;
      assert xs[idx[j]] == y;
    }
  }

  /** Lines 42-44: resampling with replacement when `sample_size` is truthy. */
  function Subsample(meta: seq<ASVFile>, sampleSize: Option<int>, selectIdx: seq<int>): (r: Result<seq<ASVFile>, InitError>)
    requires DrawAvailable(sampleSize, selectIdx, |meta|)
    ensures r.Failure? <==> Truthy(sampleSize) && (|meta| == 0 || sampleSize.value < 0)
    ensures r.Failure? ==> r.error == ChoiceFailed
    ensures r.Success? && !Truthy(sampleSize) ==> r.value == meta
    ensures r.Success? && Truthy(sampleSize) ==>
      |r.value| == sampleSize.value && forall j :: 0 <= j < |r.value| ==> r.value[j] == meta[selectIdx[j]]
  {
    if !Truthy(sampleSize) then Success(meta)
    else if |meta| == 0 || sampleSize.value < 0 then Failure(ChoiceFailed)
    else Success(Select(meta, selectIdx))
  }

  /** Rebuild samples from three parallel columns of equal length. */
  function Zip<Audio>(xs: seq<Audio>, ys: seq<real>, zs: seq<int>): (r: seq<Sample<Audio>>)
    requires |xs| == |ys| == |zs|
    ensures |r| == |xs|
  {
    seq(|xs|, i requires 0 <= i < |xs| => Sample(xs[i], ys[i], zs[i]))
  }

  /** `data_x` as `zip(*data)` lays it out: the audio of every sample, in order. */
  function AudioColumn<Audio>(data: seq<Sample<Audio>>): (r: seq<Audio>)
    ensures |r| == |data| && forall i :: 0 <= i < |data| ==> r[i] == data[i].x
  {
    if data == [] then [] else [data[0].x] + AudioColumn(data[1..])
  }

  /** `data_y`: the label of every sample, in order. */
  function LabelColumn<Audio>(data: seq<Sample<Audio>>): (r: seq<real>)
    ensures |r| == |data| && forall i :: 0 <= i < |data| ==> r[i] == data[i].y
  {
    if data == [] then [] else [data[0].y] + LabelColumn(data[1..])
  }

  /** `data_sysid`: the system id of every sample, in order. */
  function SysidColumn<Audio>(data: seq<Sample<Audio>>): (r: seq<int>)
    ensures |r| == |data| && forall i :: 0 <= i < |data| ==> r[i] == data[i].sysId
  {
    if data == [] then [] else [data[0].sysId] + SysidColumn(data[1..])
  }

  /** `map(list, zip(*data))` unpacked into three names: the three columns,
      except that an empty `data` gives no column at all and the unpacking
      raises. */
  function Unzip<Audio>(data: seq<Sample<Audio>>): (r: Result<(seq<Audio>, seq<real>, seq<int>), InitError>)
    ensures r.Failure? <==> data == []
    ensures r.Failure? ==> r.error == UnpackFailed
    ensures r.Success? ==> |r.value.0| == |data| && |r.value.1| == |data| && |r.value.2| == |data|
    ensures r.Success? ==> forall i :: 0 <= i < |data| ==>
      r.value.0[i] == data[i].x && r.value.1[i] == data[i].y && r.value.2[i] == data[i].sysId
  {
    if data == [] then Failure(UnpackFailed)
    else Success((AudioColumn(data), LabelColumn(data), SysidColumn(data)))
  }

  /** Zipping the columns back gives the samples. */
  lemma ZipUnzip<Audio>(data: seq<Sample<Audio>>)
    requires data != []
    ensures var c := Unzip(data).value; Zip(c.0, c.1, c.2) == data
  {
  }

  /** Unzipping zipped columns gives the columns back. */
  lemma UnzipZip<Audio>(xs: seq<Audio>, ys: seq<real>, zs: seq<int>)
    requires |xs| == |ys| == |zs| > 0
    ensures Unzip(Zip(xs, ys, zs)) == Success((xs, ys, zs))
  {
    var c := Unzip(Zip(xs, ys, zs)).value;
    assert c.0 == xs;
    assert c.1 == ys;
    assert c.2 == zs;
  }

  /** A transform as `__init__` receives it: a function on audio, which
      yields `None` where the Python callable raises. */
  type Transform<!Audio> = Audio -> Option<Audio>

  /** `list(map(transform, xs))`: it succeeds exactly when the transform
      succeeds on every element, and then maps element by element; the
      first raise aborts. */
  function Transformed<Audio>(f: Transform<Audio>, xs: seq<Audio>): (r: Result<seq<Audio>, InitError>)
    ensures r.Success? <==> forall i :: 0 <= i < |xs| ==> f(xs[i]).Some?
    ensures r.Success? ==> |r.value| == |xs| && forall i :: 0 <= i < |xs| ==> r.value[i] == f(xs[i]).value
    ensures r.Failure? ==> r.error == TransformFailed
  {
    if xs == [] then Success([])
    else match f(xs[0])
      case None => Failure(TransformFailed)
      case Some(y) =>
        match Transformed(f, xs[1..])
        case Failure(e) => Failure(e)
        case Success(ys) => Success([y] + ys)
  }

  /** The transform maps element by element, so on a sequence it succeeds
      on, it commutes with resampling. */
  lemma TransformedSelect<Audio>(f: Transform<Audio>, xs: seq<Audio>, idx: seq<int>)
    requires forall j :: 0 <= j < |idx| ==> 0 <= idx[j] < |xs|
    ensures Transformed(f, xs).Success? ==>
      Transformed(f, Select(xs, idx)) == Success(Select(Transformed(f, xs).value, idx))
  {
    var t := Transformed(f, xs);
    if t.Success? {
      var s := Select(xs, idx);
      forall j | 0 <= j < |s|
        ensures f(s[j]).Some? && f(s[j]).value == Select(t.value, idx)[j]
      {
        assert s[j] == xs[idx[j]];
      }
      assert Transformed(f, s).value == Select(t.value, idx);
    }
  }

  /** Lines 40-45: the records `files_meta` ends up holding, parsed and then
      resampled when `sample_size` is truthy; one per line, or exactly
      `sample_size` of them. Only the parse and the draw can fail here. */
  function Records(filesDir: string, lines: seq<string>, sampleSize: Option<int>, selectIdx: seq<int>): (r: Result<seq<ASVFile>, InitError>)
    requires DrawAvailable(sampleSize, selectIdx, |lines|)
    ensures r.Success? ==> |r.value| == if Truthy(sampleSize) then sampleSize.value else |lines|
    ensures r.Failure? ==> r.error.ParseFailed? || r.error == ChoiceFailed
  {
    match ParseProtocolsFile(filesDir, lines)
    case Failure(e) => Failure(ParseFailed(e))
    case Success(parsed) => Subsample(parsed, sampleSize, selectIdx)
  }

  /** Which records are kept: construction gets past this stage exactly when
      every line parses and the draw does not raise; record `j` is then the
      parse of line `selectIdx[j]` when resampling and of line `j` otherwise,
      with a binary key and a system id from 0 to 6. */
  lemma RecordsSpec(filesDir: string, lines: seq<string>, sampleSize: Option<int>, selectIdx: seq<int>)
    requires DrawAvailable(sampleSize, selectIdx, |lines|)
    ensures var r := Records(filesDir, lines, sampleSize, selectIdx);
      && (r.Success? <==>
            (forall i :: 0 <= i < |lines| ==> ParseLine(filesDir, lines[i]).Success?) &&
            !(Truthy(sampleSize) && (|lines| == 0 || sampleSize.value < 0)))
      && (r.Success? ==> |r.value| == if Truthy(sampleSize) then sampleSize.value else |lines|)
      && (r.Success? ==> forall j :: 0 <= j < |r.value| ==>
            var i := if Truthy(sampleSize) then selectIdx[j] else j;
            0 <= i < |lines| && r.value[j] == ParseLine(filesDir, lines[i]).value)
      && (r.Success? ==> forall j :: 0 <= j < |r.value| ==>
            (r.value[j].key == 0 || r.value[j].key == 1) && 0 <= r.value[j].sysId <= 6)
  {
    var p := ParseProtocolsFile(filesDir, lines);
    if p.Success? {
      ParsedRecordsInRange(filesDir, lines);
      var r := Subsample(p.value, sampleSize, selectIdx);
      assert Records(filesDir, lines, sampleSize, selectIdx) == r;
      if r.Success? {
        forall j | 0 <= j < |r.value|
          ensures var i := if Truthy(sampleSize) then selectIdx[j] else j;
            && 0 <= i < |lines| && r.value[j] == ParseLine(filesDir, lines[i]).value
            && (r.value[j].key == 0 || r.value[j].key == 1) && 0 <= r.value[j].sysId <= 6
        {
          var i := if Truthy(sampleSize) then selectIdx[j] else j;
          assert r.value[j] == p.value[i];
          assert p.value[i] in p.value;
        }
      }
    }
  }

  /** Lines 45 and 51 with the cache absent: read every kept record, then
      split the samples into three columns, each as long as the records,
      of which there is at least one. Only reading and unpacking can fail
      here. */
  function Columns<Audio>(readAudio: string -> Option<Audio>, meta: seq<ASVFile>): (r: Result<(seq<Audio>, seq<real>, seq<int>), InitError>)
    ensures r.Success? ==> meta != [] && |r.value.0| == |meta| && |r.value.1| == |meta| && |r.value.2| == |meta|
    ensures r.Failure? ==> r.error.ReadFailed? || r.error == UnpackFailed
  {
    match ReadAll(readAudio, meta)
    case Failure(e) => Failure(e)
    case Success(data) => Unzip(data)
  }

  /** The columns exist exactly when there is at least one record and every
      record's audio can be read; position `i` of each column then comes from
      record `i`: its audio, its key as a float, its system id. */
  lemma ColumnsSpec<Audio>(readAudio: string -> Option<Audio>, meta: seq<ASVFile>)
    ensures var c := Columns(readAudio, meta);
      && (c.Success? <==> meta != [] && forall i :: 0 <= i < |meta| ==> readAudio(meta[i].fileName).Some?)
      && (c.Success? ==> |c.value.0| == |meta| && |c.value.1| == |meta| && |c.value.2| == |meta|)
      && (c.Success? ==> forall i :: 0 <= i < |meta| ==>
            && c.value.0[i] == readAudio(meta[i].fileName).value
            && c.value.1[i] == meta[i].key as real
            && c.value.2[i] == meta[i].sysId)
  {
    var d := ReadAll(readAudio, meta);
    if d.Success? && meta != [] {
      var c := Unzip(d.value).value;
      forall i | 0 <= i < |meta|
        ensures c.0[i] == readAudio(meta[i].fileName).value && c.1[i] == meta[i].key as real && c.2[i] == meta[i].sysId
      {
        assert d.value[i] == Sample(readAudio(meta[i].fileName).value, meta[i].key as real, meta[i].sysId);
        assert c.0[i] == d.value[i].x && c.1[i] == d.value[i].y && c.2[i] == d.value[i].sysId;
      }
    }
  }

  /** `if self.transform:` followed by line 53: without a transform the
      audio column is kept as it is; with one, it is replaced by the mapped
      column of the same length, unless the transform raises. */
  function MaybeTransformed<Audio>(transform: Option<Transform<Audio>>, xs: seq<Audio>): (r: Result<seq<Audio>, InitError>)
    ensures transform.None? ==> r == Success(xs)
    ensures r.Success? ==> |r.value| == |xs|
    ensures r.Failure? ==> transform.Some? && r.error == TransformFailed
  {
    if transform.Some? then Transformed(transform.value, xs) else Success(xs)
  }

  /** The state `__init__` leaves behind, as values. */
  datatype Loaded<Audio> = Loaded(filesMeta: seq<ASVFile>, dataX: seq<Audio>, dataY: seq<real>, dataSysid: seq<int>)

  /** Lines 40-56 with the cache absent: parse, resample, read, unzip,
      transform. What it builds is four sequences of one positive length. */
  function Load<Audio>(filesDir: string, lines: seq<string>, sampleSize: Option<int>, selectIdx: seq<int>,
                       readAudio: string -> Option<Audio>, transform: Option<Transform<Audio>>): (r: Result<Loaded<Audio>, InitError>)
    requires DrawAvailable(sampleSize, selectIdx, |lines|)
    ensures r.Success? ==>
      && |r.value.filesMeta| > 0
      && |r.value.dataX| == |r.value.filesMeta|
      && |r.value.dataY| == |r.value.filesMeta|
      && |r.value.dataSysid| == |r.value.filesMeta|
  {
    match Records(filesDir, lines, sampleSize, selectIdx)
    case Failure(e) => Failure(e)
    case Success(meta) =>
      match Columns(readAudio, meta)
      case Failure(e) => Failure(e)
      case Success(c) =>
        match MaybeTransformed(transform, c.0)
        case Failure(e) => Failure(e)
        case Success(x) => Success(Loaded(meta, x, c.1, c.2))
  }

  /** Once the records are kept and their samples read, `Load` fails exactly
      when the transform fails on the audio column, with its error, and
      otherwise holds the records, the transformed audio column and the
      other two columns, consistently. */
  lemma LoadOfStages<Audio>(filesDir: string, lines: seq<string>, sampleSize: Option<int>, selectIdx: seq<int>,
                            readAudio: string -> Option<Audio>, transform: Option<Transform<Audio>>,
                            meta: seq<ASVFile>, data: seq<Sample<Audio>>)
    requires DrawAvailable(sampleSize, selectIdx, |lines|)
    requires Records(filesDir, lines, sampleSize, selectIdx) == Success(meta)
    requires ReadAll(readAudio, meta) == Success(data) && data != []
    ensures var l, t := Load(filesDir, lines, sampleSize, selectIdx, readAudio, transform),
                        MaybeTransformed(transform, AudioColumn(data));
      && (l.Failure? <==> t.Failure?)
      && (t.Failure? ==> l.error == t.error)
      && (t.Success? ==> l.value == Loaded(meta, t.value, LabelColumn(data), SysidColumn(data)) && Consistent(l.value))
  {
    var l := Load(filesDir, lines, sampleSize, selectIdx, readAudio, transform);
    assert Columns(readAudio, meta) == Success((AudioColumn(data), LabelColumn(data), SysidColumn(data)));
    if l.Success? {
      LoadConsistent(filesDir, lines, sampleSize, selectIdx, readAudio, transform);
    }
  }

  /** A line that does not parse aborts construction with the parser's
      error, whatever the other arguments are. */
  lemma LoadParseFailure<Audio>(filesDir: string, lines: seq<string>, sampleSize: Option<int>, selectIdx: seq<int>,
                                readAudio: string -> Option<Audio>, transform: Option<Transform<Audio>>)
    requires DrawAvailable(sampleSize, selectIdx, |lines|)
    requires exists i :: 0 <= i < |lines| && ParseLine(filesDir, lines[i]).Failure?
    ensures var p := ParseProtocolsFile(filesDir, lines);
      p.Failure? && Load(filesDir, lines, sampleSize, selectIdx, readAudio, transform) == Failure(ParseFailed(p.error))
  {
  }

  /** An empty protocol file never yields a dataset: with resampling the
      draw from nothing raises, without it the unpacking does. */
  lemma LoadEmptyFails<Audio>(filesDir: string, sampleSize: Option<int>, selectIdx: seq<int>,
                              readAudio: string -> Option<Audio>, transform: Option<Transform<Audio>>)
    ensures Load(filesDir, [], sampleSize, selectIdx, readAudio, transform) ==
      Failure(if Truthy(sampleSize) then ChoiceFailed else UnpackFailed)
  {
    assert ParseProtocolsFile(filesDir, []) == Success([]);
    assert ReadAll(readAudio, []) == Success([]);
  }

  /** Past the records, construction succeeds exactly when there is at least
      one record, every record's audio can be read and, when there is a
      transform, it succeeds on each of those audios. */
  lemma ReadAndTransformSucceed<Audio>(readAudio: string -> Option<Audio>, transform: Option<Transform<Audio>>,
                                       meta: seq<ASVFile>)
    ensures var c := Columns(readAudio, meta);
      (c.Success? && MaybeTransformed(transform, c.value.0).Success?) <==>
        && meta != []
        && forall j :: 0 <= j < |meta| ==>
             && readAudio(meta[j].fileName).Some?
             && (transform.Some? ==> transform.value(readAudio(meta[j].fileName).value).Some?)
  {
    var c := Columns(readAudio, meta);
    ColumnsSpec(readAudio, meta);
    if c.Success? && transform.Some? {
      var f := transform.value;
      assert MaybeTransformed(transform, c.value.0) == Transformed(f, c.value.0);
      assert (forall j :: 0 <= j < |meta| ==> f(c.value.0[j]).Some?) <==>
             (forall j :: 0 <= j < |meta| ==> f(readAudio(meta[j].fileName).value).Some?);
    }
  }

  /** Construction succeeds exactly when every line parses, the draw does
      not raise, at least one record is kept, every kept record's audio
      can be read and, when there is a transform, it succeeds on each of
      those audios. */
  lemma LoadSucceeds<Audio>(filesDir: string, lines: seq<string>, sampleSize: Option<int>, selectIdx: seq<int>,
                            readAudio: string -> Option<Audio>, transform: Option<Transform<Audio>>)
    requires DrawAvailable(sampleSize, selectIdx, |lines|)
    ensures var r := Records(filesDir, lines, sampleSize, selectIdx);
      Load(filesDir, lines, sampleSize, selectIdx, readAudio, transform).Success? <==>
        && (forall i :: 0 <= i < |lines| ==> ParseLine(filesDir, lines[i]).Success?)
        && !(Truthy(sampleSize) && (|lines| == 0 || sampleSize.value < 0))
        && r.Success? && r.value != []
        && forall j :: 0 <= j < |r.value| ==>
             && readAudio(r.value[j].fileName).Some?
             && (transform.Some? ==> transform.value(readAudio(r.value[j].fileName).value).Some?)
  {
    var r := Records(filesDir, lines, sampleSize, selectIdx);
    assert r.Success? <==>
      (forall i :: 0 <= i < |lines| ==> ParseLine(filesDir, lines[i]).Success?) &&
      !(Truthy(sampleSize) && (|lines| == 0 || sampleSize.value < 0)) by {
      RecordsSpec(filesDir, lines, sampleSize, selectIdx);
    }
    if r.Success? {
      ReadAndTransformSucceed(readAudio, transform, r.value);
    }
  }

  /** A built dataset has as many samples as the protocol has lines, or
      exactly `sample_size` when that is truthy; the four sequences have
      that length. */
  lemma LoadCount<Audio>(filesDir: string, lines: seq<string>, sampleSize: Option<int>, selectIdx: seq<int>,
                         readAudio: string -> Option<Audio>, transform: Option<Transform<Audio>>)
    requires DrawAvailable(sampleSize, selectIdx, |lines|)
    requires Load(filesDir, lines, sampleSize, selectIdx, readAudio, transform).Success?
    ensures var d := Load(filesDir, lines, sampleSize, selectIdx, readAudio, transform).value;
      var n := if Truthy(sampleSize) then sampleSize.value else |lines|;
      n > 0 && |d.filesMeta| == n && |d.dataX| == n && |d.dataY| == n && |d.dataSysid| == n
  {
    RecordsSpec(filesDir, lines, sampleSize, selectIdx);
    ColumnsSpec(readAudio, Records(filesDir, lines, sampleSize, selectIdx).value);
  }

  /** Record `j` of a built dataset is the parse of line `selectIdx[j]`
      when resampling, of line `j` otherwise. */
  lemma LoadRecords<Audio>(filesDir: string, lines: seq<string>, sampleSize: Option<int>, selectIdx: seq<int>,
                           readAudio: string -> Option<Audio>, transform: Option<Transform<Audio>>)
    requires DrawAvailable(sampleSize, selectIdx, |lines|)
    requires Load(filesDir, lines, sampleSize, selectIdx, readAudio, transform).Success?
    ensures var d := Load(filesDir, lines, sampleSize, selectIdx, readAudio, transform).value;
      forall j :: 0 <= j < |d.filesMeta| ==>
        var i := if Truthy(sampleSize) then selectIdx[j] else j;
        0 <= i < |lines| && d.filesMeta[j] == ParseLine(filesDir, lines[i]).value
  {
    RecordsSpec(filesDir, lines, sampleSize, selectIdx);
  }

  /** Sample `i` of a built dataset: the audio of record `i`, transformed
      when there is a transform, its key as the label 0.0 or 1.0, and its
      system id, 0 to 6. */
  lemma LoadSamples<Audio>(filesDir: string, lines: seq<string>, sampleSize: Option<int>, selectIdx: seq<int>,
                           readAudio: string -> Option<Audio>, transform: Option<Transform<Audio>>)
    requires DrawAvailable(sampleSize, selectIdx, |lines|)
    requires Load(filesDir, lines, sampleSize, selectIdx, readAudio, transform).Success?
    ensures var d := Load(filesDir, lines, sampleSize, selectIdx, readAudio, transform).value;
      |d.dataX| == |d.filesMeta| && |d.dataY| == |d.filesMeta| && |d.dataSysid| == |d.filesMeta| &&
      forall i :: 0 <= i < |d.filesMeta| ==>
        && readAudio(d.filesMeta[i].fileName).Some?
        && (transform.Some? ==> transform.value(readAudio(d.filesMeta[i].fileName).value).Some?)
        && d.dataX[i] == (if transform.Some? then transform.value(readAudio(d.filesMeta[i].fileName).value).value
                          else readAudio(d.filesMeta[i].fileName).value)
        && d.dataY[i] == d.filesMeta[i].key as real
        && (d.dataY[i] == 0.0 || d.dataY[i] == 1.0)
        && d.dataSysid[i] == d.filesMeta[i].sysId
        && 0 <= d.dataSysid[i] <= 6
  {
    var meta := Records(filesDir, lines, sampleSize, selectIdx).value;
    var c := Columns(readAudio, meta).value;
    var x := MaybeTransformed(transform, c.0).value;
    assert Load(filesDir, lines, sampleSize, selectIdx, readAudio, transform).value == Loaded(meta, x, c.1, c.2);
    LoadConsistent(filesDir, lines, sampleSize, selectIdx, readAudio, transform);
    forall i | 0 <= i < |meta|
      ensures && readAudio(meta[i].fileName).Some?
              && (transform.Some? ==> transform.value(readAudio(meta[i].fileName).value).Some?)
              && x[i] == (if transform.Some? then transform.value(readAudio(meta[i].fileName).value).value
                          else readAudio(meta[i].fileName).value)
    {
      assert readAudio(meta[i].fileName).Some? && c.0[i] == readAudio(meta[i].fileName).value by {
        ColumnsSpec(readAudio, meta);
      }
    }
  }

  /** Four parallel sequences of one positive length, in which each label
      and system id is that of the record at the same position, and every
      key is binary and every system id within the table. */
  ghost predicate Consistent<Audio>(d: Loaded<Audio>) {
    && |d.filesMeta| > 0
    && |d.dataX| == |d.filesMeta| && |d.dataY| == |d.filesMeta| && |d.dataSysid| == |d.filesMeta|
    && forall i :: 0 <= i < |d.filesMeta| ==>
         && (d.filesMeta[i].key == 0 || d.filesMeta[i].key == 1)
         && 0 <= d.filesMeta[i].sysId <= 6
         && d.dataY[i] == d.filesMeta[i].key as real
         && d.dataSysid[i] == d.filesMeta[i].sysId
  }

  /** Whatever construction builds is consistent. */
  lemma LoadConsistent<Audio>(filesDir: string, lines: seq<string>, sampleSize: Option<int>, selectIdx: seq<int>,
                              readAudio: string -> Option<Audio>, transform: Option<Transform<Audio>>)
    requires DrawAvailable(sampleSize, selectIdx, |lines|)
    requires Load(filesDir, lines, sampleSize, selectIdx, readAudio, transform).Success?
    ensures Consistent(Load(filesDir, lines, sampleSize, selectIdx, readAudio, transform).value)
  {
    RecordsSpec(filesDir, lines, sampleSize, selectIdx);
    ColumnsSpec(readAudio, Records(filesDir, lines, sampleSize, selectIdx).value);
  }

  /** The transform touches only the audio. With it, construction succeeds
      exactly when it succeeds without it and the transform succeeds on
      every audio; a failure before the transform is the same failure, a
      failure of the transform alone is `TransformFailed`; and a success
      has the same records, labels and system ids, with the audio mapped
      element by element. */
  lemma LoadTransformOnlyAudio<Audio>(filesDir: string, lines: seq<string>, sampleSize: Option<int>, selectIdx: seq<int>,
                                      readAudio: string -> Option<Audio>, f: Transform<Audio>)
    requires DrawAvailable(sampleSize, selectIdx, |lines|)
    ensures var a := Load(filesDir, lines, sampleSize, selectIdx, readAudio, Some(f));
      var b := Load(filesDir, lines, sampleSize, selectIdx, readAudio, None);
      && (a.Success? <==> b.Success? && Transformed(f, b.value.dataX).Success?)
      && (b.Failure? ==> a == b)
      && (b.Success? && a.Failure? ==> a.error == TransformFailed)
      && (a.Success? ==>
            && a.value.filesMeta == b.value.filesMeta
            && a.value.dataY == b.value.dataY
            && a.value.dataSysid == b.value.dataSysid
            && Success(a.value.dataX) == Transformed(f, b.value.dataX))
  {
    var r := Records(filesDir, lines, sampleSize, selectIdx);
    if r.Success? {
      var c := Columns(readAudio, r.value);
      if c.Success? {
        var t := Transformed(f, c.value.0);
        assert Load(filesDir, lines, sampleSize, selectIdx, readAudio, None) ==
          Success(Loaded(r.value, c.value.0, c.value.1, c.value.2));
        if t.Success? {
          assert Load(filesDir, lines, sampleSize, selectIdx, readAudio, Some(f)) ==
            Success(Loaded(r.value, t.value, c.value.1, c.value.2));
        } else {
          assert Load(filesDir, lines, sampleSize, selectIdx, readAudio, Some(f)) == Failure(TransformFailed);
        }
      }
    }
  }

  /** `sample_size=0` is falsy and behaves as no `sample_size` at all. */
  lemma LoadSampleSizeZero<Audio>(filesDir: string, lines: seq<string>, selectIdx: seq<int>,
                                  readAudio: string -> Option<Audio>, transform: Option<Transform<Audio>>)
    ensures Load(filesDir, lines, Some(0), selectIdx, readAudio, transform) ==
      Load(filesDir, lines, None, selectIdx, readAudio, transform)
  {
  }

  /** What `__getitem__` raises for an index out of range. */
  datatype GetItemError = IndexOutOfRange(index: int)

  class ASVDataset<Audio> {
    const dataRoot: string
    const dsetName: string
    const protocolsFname: string
    const filesDir: string
    var filesMeta: seq<ASVFile>
    var transform: Option<Transform<Audio>>
    var dataX: seq<Audio>
    var dataY: seq<real>
    var dataSysid: seq<int>
    var length: int

    /** What the object holds, as a value. */
    ghost function Contents(): Loaded<Audio>
      reads this
    {
      Loaded(filesMeta, dataX, dataY, dataSysid)
    }

    /** A built dataset: its contents are consistent and `length` is their
        common length. */
    ghost predicate Valid()
      reads this
    {
      Consistent(Contents()) && length == |dataX|
    }

    /** The attribute assignments of lines 31-41, 44, 46, 51-53 and 56 once
        the records and the three columns are computed: the configuration
        of the split, the records, the transform, the columns, and `length`
        set to the number of samples. Columns consistent with the records
        make a valid dataset. */
    constructor Assemble(dataRoot: string, isTrain: bool, transform: Option<Transform<Audio>>,
                         filesMeta: seq<ASVFile>, dataX: seq<Audio>, dataY: seq<real>, dataSysid: seq<int>)
      requires Consistent(Loaded(filesMeta, dataX, dataY, dataSysid))
      ensures this.dataRoot == dataRoot && dsetName == DsetName(isTrain)
      ensures protocolsFname == ProtocolsFname(dataRoot, isTrain) && filesDir == FilesDir(dataRoot, isTrain)
      ensures this.filesMeta == filesMeta && this.transform == transform
      ensures this.dataX == dataX && this.dataY == dataY && this.dataSysid == dataSysid
      ensures length == |dataX|
      ensures Valid()
    {
      this.dataRoot := dataRoot;
      dsetName := DsetName(isTrain);
      protocolsFname := ProtocolsFname(dataRoot, isTrain);
      filesDir := FilesDir(dataRoot, isTrain);
      this.filesMeta := filesMeta;
      this.transform := transform;
      this.dataX, this.dataY, this.dataSysid := dataX, dataY, dataSysid;
      length := |dataX|;
    }

    /** `ASVDataset(data_root, transform, is_train, sample_size)` with the
        protocol file's lines, the indices the random draw would return and
        the audio reader given as arguments. Either construction aborts with
        the error of `Load`, or the new dataset holds exactly what `Load`
        computes. */
    static method Create(dataRoot: string, transform: Option<Transform<Audio>>, isTrain: bool, sampleSize: Option<int>,
                         lines: seq<string>, selectIdx: seq<int>, readAudio: string -> Option<Audio>)
      returns (r: Result<ASVDataset<Audio>, InitError>)
      requires DrawAvailable(sampleSize, selectIdx, |lines|)
      ensures var l := Load(FilesDir(dataRoot, isTrain), lines, sampleSize, selectIdx, readAudio, transform);
        && (r.Failure? <==> l.Failure?)
        && (r.Failure? ==> r.error == l.error)
        && (r.Success? ==>
              && fresh(r.value) && r.value.Valid()
              && r.value.dataRoot == dataRoot && r.value.dsetName == DsetName(isTrain)
              && r.value.protocolsFname == ProtocolsFname(dataRoot, isTrain)
              && r.value.filesDir == FilesDir(dataRoot, isTrain)
              && r.value.transform == transform
              && r.value.Contents() == l.value)
    {
      var filesDir := FilesDir(dataRoot, isTrain);
      var parsed := ParseProtocolsFile(filesDir, lines);
      if parsed.Failure? {
        return Failure(ParseFailed(parsed.error));
      }
      var meta := parsed.value;
      if Truthy(sampleSize) {
        if |meta| == 0 || sampleSize.value < 0 {
          return Failure(ChoiceFailed);
        }
        meta := Select(meta, selectIdx);
      }
      var data := ReadAll(readAudio, meta);
      if data.Failure? {
        return Failure(data.error);
      }
      var columns := Unzip(data.value);
      if columns.Failure? {
        return Failure(columns.error);
      }
      LoadOfStages(filesDir, lines, sampleSize, selectIdx, readAudio, transform, meta, data.value);
      var dataX, dataY, dataSysid := columns.value.0, columns.value.1, columns.value.2;
      if transform.Some? {
        var mapped := Transformed(transform.value, dataX);
        if mapped.Failure? {
          return Failure(mapped.error);
        }
        dataX := mapped.value;
      }
      var ds := new ASVDataset<Audio>.Assemble(dataRoot, isTrain, transform, meta, dataX, dataY, dataSysid);
      return Success(ds);
    }

    /** `__len__` */
    function Len(): (n: int)
      reads this
      requires Valid()
      ensures n == |dataX| && n == |dataY| && n > 0
    {
      length
    }

    /** `__getitem__`: the audio and label at `idx` (the system id is not
        returned), counting from the end for a negative `idx` as Python
        lists do, and `IndexError` outside `-length <= idx < length`. */
    function GetItem(idx: int): (r: Result<(Audio, real), GetItemError>)
      reads this
      requires Valid()
      ensures r.Success? <==> -length <= idx < length
      ensures 0 <= idx < length ==> r == Success((dataX[idx], dataY[idx]))
      ensures -length <= idx < 0 ==> r == Success((dataX[length + idx], dataY[length + idx]))
      ensures r.Failure? ==> r.error == IndexOutOfRange(idx)
    {
      var i := if idx < 0 then length + idx else idx;
      if 0 <= i < length then Success((dataX[i], dataY[i])) else Failure(IndexOutOfRange(idx))
    }
  }

  /** The label `__getitem__` returns is the key of the record at that
      position, so 1.0 exactly for a bonafide line. */
  lemma GetItemLabel<Audio>(ds: ASVDataset<Audio>, idx: int)
    requires ds.Valid() && 0 <= idx < ds.length
    ensures ds.GetItem(idx).Success?
    ensures ds.GetItem(idx).value.1 == ds.filesMeta[idx].key as real
    ensures ds.GetItem(idx).value.1 == 1.0 <==> ds.filesMeta[idx].key == 1
  {
  }
}
