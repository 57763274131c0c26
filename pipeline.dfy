/** The two entry points, `encode` and `decode`, that chain the bit-matrix
    codec and the sequence file format with the pluggable collaborators
    (yyc/pipeline.py). The collaborators' code is not part of this model:
    each is a record of functions. The round trip assumes that each one's
    two halves are inverse, that the method emits plain symbols, that
    `encode` completed into a writable output, and that `decode` reads that
    output with the same method, verify method and index flag. */
module Pipeline {
  import DataHandle

  datatype Option<T> = None | Some(value: T)

  /** What a collaborator returns: its value, or the error it raised. */
  datatype Result<T> = Ok(value: T) | Err(reason: string)

  type Matrix = DataHandle.Matrix
  type Sequences = seq<seq<char>>

  /** The symbol-encoding method (for instance the YYC scheme). */
  datatype Method = Method(
    encode: (Matrix, nat) -> Result<Sequences>,
    decode: Sequences -> Result<(Matrix, nat)>)

  /** The optional error-correction method. */
  datatype Verify = Verify(
    addForMatrix: Matrix -> Result<Matrix>,
    verifyForMatrix: Matrix -> Result<Matrix>)

  /** The index operator: embeds row indices, splits them off again, and
      restores row order from them. */
  datatype IndexOperator = IndexOperator(
    connectAll: Matrix -> Result<Matrix>,
    divideAll: Matrix -> Result<(seq<int>, Matrix)>,
    sortOrder: (seq<int>, Matrix) -> Result<Matrix>)

  /** The persisted `{"method": …, "verify": …}` bundle. */
  datatype Model = Model(scheme: Method, verify: Option<Verify>)

  /** The model files on disk, by path. */
  type ModelStore = map<string, Model>

  /** An input handle: falsy (`None` or `""`), or a stream holding `content`.
      Both falsy forms fail when the read starts: `None` has no size or lines,
      and `""` names no file. */
  datatype Source = MissingSource | Source(content: seq<DataHandle.Byte>)

  /** An output handle: `None`, which fails only at its first `write`; the
      empty path `""`, which fails when the writer opens it, whatever is to be
      written; or a writable stream. */
  datatype Sink = MissingSink | EmptyPath | Sink

  /** A handle Python treats as false. */
  predicate Falsy(output: Sink)
  {
    !output.Sink?
  }

  /** The stages of the two entry points, in the order the source names them. */
  datatype Stage =
    | ReadBinary | ConnectAll | AddForMatrix | EncodeSymbols | SaveModel | WriteDna
    | LoadModel | ReadDna | DecodeSymbols | VerifyForMatrix | DivideAll | SortOrder | WriteBinary

  /** The messages logged through `logging.error`. */
  datatype LogError = InvalidInputPath | InvalidOutputPath | MethodDoesNotExist

  /** Why a run stopped. */
  datatype Fault =
    | Raised(reason: string)  // raised by a collaborator, passed on unchanged
    | NoHandle                // a falsy input or output was used for reading or writing
    | NoMethod                // `method.decode` with no method
    | NoModel                 // `load_model` on a path that holds no model

  /** What a call did: the errors it logged, the stages it started, in order
      (the last one is the one that failed, if any), the bytes it wrote to
      its output, and the fault that stopped it. */
  datatype Run = Run(logged: seq<LogError>, stages: seq<Stage>, written: seq<DataHandle.Byte>, fault: Option<Fault>)

  datatype EncodeRun = EncodeRun(run: Run, store: ModelStore)

  predicate IsPrefix<T(==)>(a: seq<T>, b: seq<T>)
  {
    |a| <= |b| && b[..|a|] == a
  }

  /** A prefix stays a prefix under a common head and any tail. */
  lemma PrefixExtend<T>(head: seq<T>, a: seq<T>, b: seq<T>, tail: seq<T>)
    requires IsPrefix(a, b)
    ensures IsPrefix(head + a, head + b + tail)
  {
  }

  /** The errors logged for falsy handles, input first. */
  function HandleErrors(input: Source, output: Sink): (errors: seq<LogError>)
    ensures InvalidInputPath in errors <==> input.MissingSource?
    ensures InvalidOutputPath in errors <==> Falsy(output)
    ensures MethodDoesNotExist !in errors
    ensures input.MissingSource? ==> errors[0] == InvalidInputPath
    ensures |errors| == (if input.MissingSource? then 1 else 0) + (if Falsy(output) then 1 else 0)
  {
    (if input.MissingSource? then [InvalidInputPath] else [])
    + (if Falsy(output) then [InvalidOutputPath] else [])
  }

  // ---------------------------------------------------------------------------
  // encode
  // ---------------------------------------------------------------------------

  /** The stages of `encode` that transform the matrix, in order. */
  function MatrixEncodeStages(needIndex: bool, hasVerify: bool): (stages: seq<Stage>)
  {
    (if needIndex then [ConnectAll] else [])
    + (if hasVerify then [AddForMatrix] else [])
    + [EncodeSymbols]
  }

  /** Every stage of `encode`, in order, for the given options. */
  function EncodeStages(needIndex: bool, hasVerify: bool, hasModelPath: bool): (stages: seq<Stage>)
  {
    [ReadBinary] + MatrixEncodeStages(needIndex, hasVerify)
    + ((if hasModelPath then [SaveModel] else []) + [WriteDna])
  }

  /** The store after `save_model` writes `model` to `path`. */
  function Stored(store: ModelStore, path: string, model: Model): (s: ModelStore)
    ensures path in s && s[path] == model
    ensures forall other :: other != path ==> (other in s <==> other in store)
    ensures forall other :: other != path && other in store ==> s[other] == store[other]
  {
    store[path := model]
  }

  /** How far a chain of stages got: the stages started, and either the value
      of the last one or the fault that stopped it. */
  datatype Staged<T> = Reached(stages: seq<Stage>, value: T) | Stopped(stages: seq<Stage>, fault: Fault)

  /** `connect_all` if `needIndex`, `add_for_matrix` if there is a verify
      method, then `method.encode`; the first error raised stops the chain. */
  function EncodeMatrix(scheme: Method, matrix: Matrix, size: nat, verify: Option<Verify>,
                        needIndex: bool, index: IndexOperator): (p: Staged<Sequences>)
    ensures p.stages != [] && IsPrefix(p.stages, MatrixEncodeStages(needIndex, verify.Some?))
    ensures p.Reached? ==> p.stages == MatrixEncodeStages(needIndex, verify.Some?)
    ensures p.Stopped? ==> p.fault.Raised?
  {
    var indexed := if needIndex then index.connectAll(matrix) else Ok(matrix);
    var s1 := if needIndex then [ConnectAll] else [];
    if indexed.Err? then Stopped(s1, Raised(indexed.reason))
    else
      var protected := if verify.Some? then verify.value.addForMatrix(indexed.value) else indexed;
      var s2 := s1 + (if verify.Some? then [AddForMatrix] else []);
      if protected.Err? then Stopped(s2, Raised(protected.reason))
      else
        var encoded := scheme.encode(protected.value, size);
        var s3 := s2 + [EncodeSymbols];
        if encoded.Err? then Stopped(s3, Raised(encoded.reason)) else Reached(s3, encoded.value)
  }

  /** `encode`: read the matrix, embed the index if `needIndex`, add
      redundancy if a verify method is given, encode to symbol sequences,
      save `{method, verify}` if a model path is given, and write the sequence
      file. Falsy handles are only logged; a falsy input makes the read fail,
      an empty output path makes the final write fail, and `None` as output
      makes it fail once there is a line to write. */
  function Encode(scheme: Method, input: Source, output: Sink, modelPath: Option<string>,
                  verify: Option<Verify>, needIndex: bool, segmentLength: nat,
                  index: IndexOperator, store: ModelStore): (r: EncodeRun)
    requires segmentLength > 0
    ensures r.run.logged == HandleErrors(input, output)
    ensures |r.run.stages| > 0 && r.run.stages[0] == ReadBinary
    ensures IsPrefix(r.run.stages, EncodeStages(needIndex, verify.Some?, modelPath.Some?))
    ensures r.run.fault.None? ==> r.run.stages == EncodeStages(needIndex, verify.Some?, modelPath.Some?)
    ensures r.run.fault.Some? ==> r.run.written == []
    ensures r.run.fault.None? ==>
              && input.Source?
              && var p := EncodeMatrix(scheme, DataHandle.MatrixOf(input.content, segmentLength),
                                       |input.content|, verify, needIndex, index);
                 p.Reached? && r.run.written == DataHandle.DnaFileBytes(p.value)
  {
    var logged := HandleErrors(input, output);
    if input.MissingSource? then
      var all := EncodeStages(needIndex, verify.Some?, modelPath.Some?);
      assert all[0] == ReadBinary && all[..1] == [all[0]];
      EncodeRun(Run(logged, [ReadBinary], [], Some(NoHandle)), store)
    else
      var matrix := DataHandle.MatrixOf(input.content, segmentLength);
      var p := EncodeMatrix(scheme, matrix, |input.content|, verify, needIndex, index);
      var s := [ReadBinary] + p.stages;
      if p.Stopped? then
        PrefixExtend([ReadBinary], p.stages, MatrixEncodeStages(needIndex, verify.Some?),
                     (if modelPath.Some? then [SaveModel] else []) + [WriteDna]);
        EncodeRun(Run(logged, s, [], Some(p.fault)), store)
      else
        SaveAndWrite(logged, s, p.value, scheme, verify, output, modelPath, store)
  }

  /** The last two stages of `encode`: `save_model` if a model path is given,
      then `write_dna_file`, which fails on an empty output path, and on
      `None` once there is a line to write. */
  function SaveAndWrite(logged: seq<LogError>, s: seq<Stage>, sequences: Sequences, scheme: Method,
                        verify: Option<Verify>, output: Sink, modelPath: Option<string>,
                        store: ModelStore): (r: EncodeRun)
    ensures r.run.logged == logged
    ensures r.run.stages == s + ((if modelPath.Some? then [SaveModel] else []) + [WriteDna])
    ensures r.run.fault.Some? <==> output.EmptyPath? || (output.MissingSink? && sequences != [])
    ensures r.run.fault.Some? ==> r.run.fault == Some(NoHandle) && r.run.written == []
    ensures r.run.fault.None? ==> r.run.written == DataHandle.DnaFileBytes(sequences)
    ensures r.store == if modelPath.Some? then Stored(store, modelPath.value, Model(scheme, verify)) else store
  {
    var stages := s + ((if modelPath.Some? then [SaveModel] else []) + [WriteDna]);
    var saved := if modelPath.Some? then Stored(store, modelPath.value, Model(scheme, verify)) else store;
    if output.EmptyPath? || (output.MissingSink? && sequences != []) then EncodeRun(Run(logged, stages, [], Some(NoHandle)), saved)
    else EncodeRun(Run(logged, stages, DataHandle.DnaFileBytes(sequences), None), saved)
  }

  /** A falsy input stops `encode` at the read; a falsy output stops it only
      at the final write, after every other stage has run. An empty output
      path always makes that write fail; `None` makes it fail exactly when
      there is a line to write, so a run with `None` as output that succeeds
      wrote nothing. */
  lemma EncodeFalsyHandles(scheme: Method, input: Source, output: Sink, modelPath: Option<string>,
                           verify: Option<Verify>, needIndex: bool, segmentLength: nat,
                           index: IndexOperator, store: ModelStore)
    requires segmentLength > 0
    ensures var r := Encode(scheme, input, output, modelPath, verify, needIndex, segmentLength, index, store).run;
      && (input.MissingSource? ==> r.stages == [ReadBinary] && r.fault == Some(NoHandle))
      && (input.Source? && r.fault == Some(NoHandle) ==>
            Falsy(output) && r.stages == EncodeStages(needIndex, verify.Some?, modelPath.Some?))
      && (input.Source? && output.EmptyPath? ==> r.fault.Some?)
      && (input.Source? && output.MissingSink? ==>
            var p := EncodeMatrix(scheme, DataHandle.MatrixOf(input.content, segmentLength),
                                  |input.content|, verify, needIndex, index);
            (r.fault == Some(NoHandle) <==> p.Reached? && p.value != []))
      && (output.MissingSink? && r.fault.None? ==> r.written == [])
  {
  }

  /** `encode` saves `{method, verify}` to the model path exactly when a model
      path is given, the input could be read and no collaborator raised; any
      model already at that path is replaced and every other path is kept. */
  lemma EncodeSavesModel(scheme: Method, input: Source, output: Sink, modelPath: Option<string>,
                         verify: Option<Verify>, needIndex: bool, segmentLength: nat,
                         index: IndexOperator, store: ModelStore)
    requires segmentLength > 0
    ensures var r := Encode(scheme, input, output, modelPath, verify, needIndex, segmentLength, index, store);
      && (modelPath.None? ==> r.store == store)
      && (modelPath.Some? ==>
            r.store == if input.Source? && !(r.run.fault.Some? && r.run.fault.value.Raised?)
                       then Stored(store, modelPath.value, Model(scheme, verify)) else store)
  {
  }

  // ---------------------------------------------------------------------------
  // decode
  // ---------------------------------------------------------------------------

  /** Python truthiness of an optional path: given and not empty. */
  predicate Truthy(path: Option<string>)
  {
    path.Some? && path.value != ""
  }

  /** The method and verify method `decode` uses: those of the saved model when
      the model path is truthy (whatever was passed), otherwise those passed. */
  function Configuration(scheme: Option<Method>, modelPath: Option<string>, verify: Option<Verify>,
                         store: ModelStore): (c: Option<(Option<Method>, Option<Verify>)>)
    ensures Truthy(modelPath) ==> (c.Some? <==> modelPath.value in store)
    ensures Truthy(modelPath) && c.Some? ==>
              c.value.0 == Some(store[modelPath.value].scheme) && c.value.1 == store[modelPath.value].verify
    ensures !Truthy(modelPath) ==> c == Some((scheme, verify))
  {
    if Truthy(modelPath) then
      if modelPath.value in store then Some((Some(store[modelPath.value].scheme), store[modelPath.value].verify))
      else None
    else Some((scheme, verify))
  }

  /** The stages of `decode` that turn the sequences back into a matrix, in order. */
  function MatrixDecodeStages(hasVerify: bool, hasIndex: bool): (stages: seq<Stage>)
  {
    [DecodeSymbols]
    + (if hasVerify then [VerifyForMatrix] else [])
    + (if hasIndex then [DivideAll, SortOrder] else [])
  }

  /** Every stage of `decode`, in order, for the given options. */
  function DecodeStages(loadsModel: bool, hasVerify: bool, hasIndex: bool): (stages: seq<Stage>)
  {
    (if loadsModel then [LoadModel] else []) + [ReadDna] + MatrixDecodeStages(hasVerify, hasIndex) + [WriteBinary]
  }

  /** `method.decode`, then `verify_for_matrix` if there is a verify method,
      then `divide_all` and `sort_order` if `hasIndex`; the first error raised
      stops the chain. The size is the one `method.decode` returned. */
  function DecodeMatrix(scheme: Method, verify: Option<Verify>, sequences: Sequences,
                        hasIndex: bool, index: IndexOperator): (p: Staged<(Matrix, nat)>)
    ensures p.stages != [] && IsPrefix(p.stages, MatrixDecodeStages(verify.Some?, hasIndex))
    ensures p.Reached? ==> p.stages == MatrixDecodeStages(verify.Some?, hasIndex)
    ensures p.Stopped? ==> p.fault.Raised?
    ensures p.Reached? ==> scheme.decode(sequences).Ok? && p.value.1 == scheme.decode(sequences).value.1
  {
    var decoded := scheme.decode(sequences);
    var s1 := [DecodeSymbols];
    if decoded.Err? then Stopped(s1, Raised(decoded.reason))
    else
      var size := decoded.value.1;
      var checked := if verify.Some? then verify.value.verifyForMatrix(decoded.value.0) else Ok(decoded.value.0);
      var s2 := s1 + (if verify.Some? then [VerifyForMatrix] else []);
      if checked.Err? then Stopped(s2, Raised(checked.reason))
      else if !hasIndex then Reached(s2, (checked.value, size))
      else
        var divided := index.divideAll(checked.value);
        var s3 := s2 + [DivideAll];
        if divided.Err? then Stopped(s3, Raised(divided.reason))
        else
          var sorted := index.sortOrder(divided.value.0, divided.value.1);
          var s4 := s3 + [SortOrder];
          if sorted.Err? then Stopped(s4, Raised(sorted.reason)) else Reached(s4, (sorted.value, size))
  }

  /** `decode` once its method and verify method are settled: read the
      sequence file, decode it to a matrix, and write `size` bytes of it. */
  function DecodeWith(logged: seq<LogError>, s0: seq<Stage>, scheme: Option<Method>, verify: Option<Verify>,
                      input: Source, output: Sink, hasIndex: bool, index: IndexOperator): (r: Run)
    ensures r.logged == logged
    ensures IsPrefix(r.stages, s0 + [ReadDna] + MatrixDecodeStages(verify.Some?, hasIndex) + [WriteBinary])
    ensures |r.stages| > |s0| && r.stages[|s0|] == ReadDna
    ensures r.fault.None? ==> r.stages == s0 + [ReadDna] + MatrixDecodeStages(verify.Some?, hasIndex) + [WriteBinary]
    ensures r.fault.Some? ==> r.written == []
    ensures input.MissingSource? ==> r.stages == s0 + [ReadDna] && r.fault == Some(NoHandle)
    ensures input.Source? && scheme.None? ==> r.stages == s0 + [ReadDna, DecodeSymbols] && r.fault == Some(NoMethod)
    ensures input.Source? && r.fault == Some(NoHandle) ==>
              Falsy(output) && r.stages == s0 + [ReadDna] + MatrixDecodeStages(verify.Some?, hasIndex) + [WriteBinary]
    ensures input.Source? && output.EmptyPath? ==> r.fault.Some?
    ensures output.MissingSink? && r.fault.None? ==> r.written == []
    ensures r.fault.None? ==>
              && input.Source? && scheme.Some?
              && var p := DecodeMatrix(scheme.value, verify, DataHandle.ParseDnaFile(input.content), hasIndex, index);
                 p.Reached? && r.written == DataHandle.PackBytes(DataHandle.Concat(p.value.0), p.value.1)
  {
    var s1 := s0 + [ReadDna];
    if input.MissingSource? then Run(logged, s1, [], Some(NoHandle))
    else if scheme.None? then Run(logged, s1 + [DecodeSymbols], [], Some(NoMethod))
    else
      var p := DecodeMatrix(scheme.value, verify, DataHandle.ParseDnaFile(input.content), hasIndex, index);
      var s2 := s1 + p.stages;
      if p.Stopped? then Run(logged, s2, [], Some(p.fault))
      else
        WriteBytes(logged, s2, DataHandle.PackBytes(DataHandle.Concat(p.value.0), p.value.1), output)
  }

  /** The last stage of `decode`: `write_all_from_binary`, which fails on an
      empty output path, and on `None` once there is a byte to write. */
  function WriteBytes(logged: seq<LogError>, s: seq<Stage>, bytes: seq<DataHandle.Byte>, output: Sink): (r: Run)
    ensures r.logged == logged && r.stages == s + [WriteBinary]
    ensures r.fault.Some? <==> output.EmptyPath? || (output.MissingSink? && bytes != [])
    ensures r.fault.Some? ==> r.fault == Some(NoHandle) && r.written == []
    ensures r.fault.None? ==> r.written == bytes
  {
    if output.EmptyPath? || (output.MissingSink? && bytes != []) then Run(logged, s + [WriteBinary], [], Some(NoHandle))
    else Run(logged, s + [WriteBinary], bytes, None)
  }

  /** `decode`: with neither a method nor a model path it only logs; otherwise
      it logs falsy handles, loads `{scheme, verify}` when the model path is
      truthy, reads the sequence file, decodes it to a matrix and a size,
      checks redundancy if there is a verify scheme, strips the indices and
      restores row order if `hasIndex`, and writes `size` bytes. */
  function Decode(scheme: Option<Method>, modelPath: Option<string>, input: Source, output: Sink,
                  verify: Option<Verify>, hasIndex: bool, index: IndexOperator, store: ModelStore): (r: Run)
    ensures scheme.None? && modelPath.None? ==> r == Run([MethodDoesNotExist], [], [], None)
    ensures scheme.Some? || modelPath.Some? ==> r.logged == HandleErrors(input, output)
    ensures r.fault.Some? ==> r.written == []
    ensures var c := Configuration(scheme, modelPath, verify, store);
      (scheme.Some? || modelPath.Some?) && c.Some? ==>
        && IsPrefix(r.stages, DecodeStages(Truthy(modelPath), c.value.1.Some?, hasIndex))
        && (r.fault.None? ==> r.stages == DecodeStages(Truthy(modelPath), c.value.1.Some?, hasIndex))
    ensures Truthy(modelPath) && modelPath.value !in store ==> r.stages == [LoadModel] && r.fault == Some(NoModel)
    ensures (scheme.Some? || modelPath.Some?) && Configuration(scheme, modelPath, verify, store).Some? ==>
              ReadDna in r.stages
    ensures (scheme.Some? || modelPath.Some?) && r.fault.None? ==>
              var c := Configuration(scheme, modelPath, verify, store);
              && c.Some? && input.Source? && c.value.0.Some?
              && var p := DecodeMatrix(c.value.0.value, c.value.1, DataHandle.ParseDnaFile(input.content), hasIndex, index);
                 p.Reached? && r.written == DataHandle.PackBytes(DataHandle.Concat(p.value.0), p.value.1)
  {
    if scheme.None? && modelPath.None? then Run([MethodDoesNotExist], [], [], None)
    else
      var logged := HandleErrors(input, output);
      var s0 := if Truthy(modelPath) then [LoadModel] else [];
      match Configuration(scheme, modelPath, verify, store)
      case None => Run(logged, s0, [], Some(NoModel))
      case Some((m, v)) => DecodeWith(logged, s0, m, v, input, output, hasIndex, index)
  }

  /** Once `decode` is past its method check: a falsy input stops it at the
      read; a falsy model path with no method stops it at `method.decode`; a
      falsy output stops it only at the final write, after every other stage.
      An empty output path always makes that write fail; `None` makes it fail
      exactly when there is a byte to write. */
  lemma DecodeFalsyHandles(scheme: Option<Method>, modelPath: Option<string>, input: Source, output: Sink,
                           verify: Option<Verify>, hasIndex: bool, index: IndexOperator, store: ModelStore)
    requires scheme.Some? || modelPath.Some?
    requires Configuration(scheme, modelPath, verify, store).Some?
    ensures var r := Decode(scheme, modelPath, input, output, verify, hasIndex, index, store);
      var s0 := if Truthy(modelPath) then [LoadModel] else [];
      && (input.MissingSource? ==> r.stages == s0 + [ReadDna] && r.fault == Some(NoHandle))
      && (input.Source? && scheme.None? && !Truthy(modelPath) ==>
            r.stages == s0 + [ReadDna, DecodeSymbols] && r.fault == Some(NoMethod))
      && (input.Source? && r.fault == Some(NoHandle) ==>
            Falsy(output)
            && r.stages == DecodeStages(Truthy(modelPath), Configuration(scheme, modelPath, verify, store).value.1.Some?, hasIndex))
      && (input.Source? && output.EmptyPath? ==> r.fault.Some?)
      && (output.MissingSink? && r.fault.None? ==> r.written == [])
  {
    var c := Configuration(scheme, modelPath, verify, store).value;
    var s0 := if Truthy(modelPath) then [LoadModel] else [];
    assert Decode(scheme, modelPath, input, output, verify, hasIndex, index, store)
        == DecodeWith(HandleErrors(input, output), s0, c.0, c.1, input, output, hasIndex, index);
  }

  /** A truthy model path overrides the method and verify method passed in. */
  lemma DecodeModelOverrides(scheme1: Option<Method>, scheme2: Option<Method>, verify1: Option<Verify>,
                             verify2: Option<Verify>, path: string, input: Source, output: Sink,
                             hasIndex: bool, index: IndexOperator, store: ModelStore)
    requires path != ""
    ensures Decode(scheme1, Some(path), input, output, verify1, hasIndex, index, store)
         == Decode(scheme2, Some(path), input, output, verify2, hasIndex, index, store)
  {
  }

  // ---------------------------------------------------------------------------
  // The collaborators' assumed contracts, and the round trip
  // ---------------------------------------------------------------------------

  /** `method.decode` undoes every successful `method.encode`. */
  ghost predicate MethodInverse(m: Method)
  {
    forall matrix, size :: m.encode(matrix, size).Ok? ==> m.decode(m.encode(matrix, size).value) == Ok((matrix, size))
  }

  /** `method.encode` emits only symbols the sequence file carries unchanged. */
  ghost predicate EmitsPlainSymbols(m: Method)
  {
    forall matrix, size :: m.encode(matrix, size).Ok? ==> DataHandle.PlainSequences(m.encode(matrix, size).value)
  }

  /** `verify_for_matrix` undoes every successful `add_for_matrix`. */
  ghost predicate VerifyInverse(v: Verify)
  {
    forall matrix :: v.addForMatrix(matrix).Ok? ==> v.verifyForMatrix(v.addForMatrix(matrix).value) == Ok(matrix)
  }

  /** `sort_order` after `divide_all` undoes every successful `connect_all`. */
  ghost predicate IndexInverse(ix: IndexOperator)
  {
    forall matrix :: ix.connectAll(matrix).Ok? ==>
      var divided := ix.divideAll(ix.connectAll(matrix).value);
      divided.Ok? && ix.sortOrder(divided.value.0, divided.value.1) == Ok(matrix)
  }

  /** The decode chain undoes the encode chain: decoding what `EncodeMatrix`
      produced, with the same method, verify scheme and index setting, runs
      every stage and gives back the matrix and the size. */
  lemma MatrixRoundTrip(scheme: Method, matrix: Matrix, size: nat, verify: Option<Verify>,
                        needIndex: bool, index: IndexOperator)
    requires MethodInverse(scheme)
    requires verify.Some? ==> VerifyInverse(verify.value)
    requires needIndex ==> IndexInverse(index)
    requires EncodeMatrix(scheme, matrix, size, verify, needIndex, index).Reached?
    ensures DecodeMatrix(scheme, verify, EncodeMatrix(scheme, matrix, size, verify, needIndex, index).value, needIndex, index)
         == Reached(MatrixDecodeStages(verify.Some?, needIndex), (matrix, size))
  {
  }

  /** Decoding the sequence file of a completed `encode`, with the same method,
      verify scheme and index setting, runs every decode stage, logs nothing and
      writes exactly the original bytes, whether or not the method and verify
      scheme were loaded from a model first. */
  lemma RoundTrip(data: seq<DataHandle.Byte>, scheme: Method, verify: Option<Verify>, needIndex: bool,
                  segmentLength: nat, index: IndexOperator, modelPath: Option<string>, store: ModelStore,
                  loadsModel: bool)
    requires segmentLength > 0
    requires MethodInverse(scheme) && EmitsPlainSymbols(scheme)
    requires verify.Some? ==> VerifyInverse(verify.value)
    requires needIndex ==> IndexInverse(index)
    requires Encode(scheme, Source(data), Sink, modelPath, verify, needIndex, segmentLength, index, store).run.fault.None?
    ensures var e := Encode(scheme, Source(data), Sink, modelPath, verify, needIndex, segmentLength, index, store);
      DecodeWith([], if loadsModel then [LoadModel] else [], Some(scheme), verify, Source(e.run.written), Sink,
                 needIndex, index)
        == Run([], DecodeStages(loadsModel, verify.Some?, needIndex), data, None)
  {
    var e := Encode(scheme, Source(data), Sink, modelPath, verify, needIndex, segmentLength, index, store);
    var matrix := DataHandle.MatrixOf(data, segmentLength);
    var p := EncodeMatrix(scheme, matrix, |data|, verify, needIndex, index);
    assert p.Reached? && e.run.written == DataHandle.DnaFileBytes(p.value);
    assert DataHandle.PlainSequences(p.value) by {
      var indexed := if needIndex then index.connectAll(matrix) else Ok(matrix);
      var protected := if verify.Some? then verify.value.addForMatrix(indexed.value) else indexed;
      assert p.value == scheme.encode(protected.value, |data|).value;
    }
    DataHandle.DnaFileRoundTrip(p.value);
    MatrixRoundTrip(scheme, matrix, |data|, verify, needIndex, index);
    DataHandle.CodecRoundTrip(data, segmentLength);
  }

  /** The round trip through `decode` given the same method and verify method
      and no model path. */
  lemma RoundTripWithMethod(data: seq<DataHandle.Byte>, scheme: Method, verify: Option<Verify>, needIndex: bool,
                            segmentLength: nat, index: IndexOperator, modelPath: Option<string>, store: ModelStore)
    requires segmentLength > 0
    requires MethodInverse(scheme) && EmitsPlainSymbols(scheme)
    requires verify.Some? ==> VerifyInverse(verify.value)
    requires needIndex ==> IndexInverse(index)
    requires Encode(scheme, Source(data), Sink, modelPath, verify, needIndex, segmentLength, index, store).run.fault.None?
    ensures var e := Encode(scheme, Source(data), Sink, modelPath, verify, needIndex, segmentLength, index, store);
      Decode(Some(scheme), None, Source(e.run.written), Sink, verify, needIndex, index, e.store)
        == Run([], DecodeStages(false, verify.Some?, needIndex), data, None)
  {
    RoundTrip(data, scheme, verify, needIndex, segmentLength, index, modelPath, store, false);
  }

  /** The round trip through `decode` given only the model path `encode`
      saved to: the loaded model supplies the scheme and verify scheme, so
      whatever verify method is passed is ignored. */
  lemma RoundTripWithModel(data: seq<DataHandle.Byte>, scheme: Method, verify: Option<Verify>, needIndex: bool,
                           segmentLength: nat, index: IndexOperator, path: string, store: ModelStore,
                           passedVerify: Option<Verify>)
    requires segmentLength > 0 && path != ""
    requires MethodInverse(scheme) && EmitsPlainSymbols(scheme)
    requires verify.Some? ==> VerifyInverse(verify.value)
    requires needIndex ==> IndexInverse(index)
    requires Encode(scheme, Source(data), Sink, Some(path), verify, needIndex, segmentLength, index, store).run.fault.None?
    ensures var e := Encode(scheme, Source(data), Sink, Some(path), verify, needIndex, segmentLength, index, store);
      Decode(None, Some(path), Source(e.run.written), Sink, passedVerify, needIndex, index, e.store)
        == Run([], DecodeStages(true, verify.Some?, needIndex), data, None)
  {
    var e := Encode(scheme, Source(data), Sink, Some(path), verify, needIndex, segmentLength, index, store);
    EncodeSavesModel(scheme, Source(data), Sink, Some(path), verify, needIndex, segmentLength, index, store);
    assert Configuration(None, Some(path), passedVerify, e.store) == Some((Some(scheme), verify));
    RoundTrip(data, scheme, verify, needIndex, segmentLength, index, Some(path), store, true);
  }
}
