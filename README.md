# YYC transcoding core in Dafny

This project models the bit-exact transcoding layer of the YYC DNA-storage pipeline and the two entry points that compose it.

- **`DataHandle`** (`data_handle.dfy`) models `yyc/utils/data_handle.py`.
  - `ReadBinaryFromAll` unpacks a byte string into a row-major bit matrix. Bits are taken most significant first. The matrix is a freshly allocated `array2`, filled in place by the source's `row`/`col` counters.
  - `WriteAllFromBinary` repacks the bits eight at a time with the source's `bit_index`/`temp_byte`/`size` accumulator. It stops once `size` bytes have been emitted.
  - `WriteDnaFile` writes one UTF-8 line per symbol sequence.
  - `ReadDnaFile` splits the file with `readlines()` semantics, applies `bytes.strip()` and maps each byte to a symbol.
  - Each method is proved against a specification function: `MatrixOf`, `PackBytes`, `DnaFileBytes` and `ParseDnaFile`. The layout, padding and round-trip properties are lemmas about those functions.
- **`Pipeline`** (`pipeline.dfy`) models `yyc/pipeline.py`.
  - `Encode` and `Decode` are pure functions that compose the codec with four collaborators: the encoding method, the optional verify (error-correction) method, the index operator and the model store.
  - The collaborators' code is not part of this model. Each collaborator is a record of functions that return a value or the error they raise.
  - The model store is a map from path to the saved `{method, verify}` bundle.
  - A run is described by the errors it logged, the stages it started (in order), the bytes it wrote and the fault that stopped it.
  - The end-to-end round trip (`RoundTrip`, `RoundTripWithMethod`, `RoundTripWithModel`) has these premises:
    - each collaborator's two halves are inverse (`MethodInverse`, `VerifyInverse`, `IndexInverse`);
    - the method emits single-byte, non-whitespace symbols (`EmitsPlainSymbols`);
    - `encode` finished without a fault: its input was readable, its output writable, and no collaborator raised;
    - `decode` reads back the file `encode` wrote, with the same method and verify method (given directly or loaded from the saved model) and the same index flag.

I/O is passed in as values:
- an input file or stream is its byte content;
- an output is the sequence of bytes written to it;
- a falsy input (`None` or `""`) is `MissingSource`;
- an output of `None` is `MissingSink` and an output of `""` is `EmptyPath`.

Notes on the code's behaviour:
- **Falsy handles.** A falsy input or output handle is only logged (`logging.error`), and the run goes on: a falsy input then fails at the read, and a falsy output at the write, as described below.
- **No method.** With neither a method nor a model path, `decode` logs the error (yyc/pipeline.py:108-109) and does nothing else: no read, decode or write runs.
- **Falsy input.** Both falsy inputs fail at the read stage. In `encode`, `None` fails inside `read_binary_from_all` because `size` is never bound (yyc/utils/data_handle.py:41-45, first used at :52). `""` fails earlier in the same stage, at `os.path.getsize("")` (:41). In `decode`, `None` fails at `None.readlines()` (:139) and `""` at `open("")` (:132).
- **Falsy output.** `""` fails when the writer opens it (yyc/utils/data_handle.py:96, :163), whatever is to be written. `None` fails only at the first `write`, so a run with nothing to write succeeds with `None` as output and writes nothing.
- **Short matrix.** No error is raised for a matrix shorter than `size * 8` bits: only its whole bytes are written.
- **Index flags.** Nothing checks that decode's `has_index` matches encode's `need_index`. The round trip simply uses the same flag for both.

## Model

| member | source | states |
|---|---|---|
| DataHandle.OffsetIsProduct | yyc/utils/data_handle.py:55-66 | the start of row r in the flattened matrix, kept by the source's row/col cursor, is r * segment_length |
| DataHandle.RowCountIsCeiling | yyc/utils/data_handle.py:51-52 | the row count equals the integer ceiling (bits + segment_length - 1) / segment_length |
| DataHandle.MatrixOf | yyc/utils/data_handle.py:51-66 | the matrix for `data` has ceil(8*size/segment_length) rows of segment_length cells, and the cell at row r, column c holds bit r*segment_length + c of the byte stream (MSB first), or 0 past its end |
| DataHandle.StoreByte | yyc/utils/data_handle.py:59-66 | storing byte i moves the cursor on by exactly 8 positions and keeps the fill invariant: every cell before the cursor holds its stream bit, every cell after it is still 0 |
| DataHandle.StoreBit | yyc/utils/data_handle.py:62-66 | storing one bit moves the cursor one position on in row-major order (wrapping to column 0 of the next row) and keeps the fill invariant |
| DataHandle.RowCount | yyc/utils/data_handle.py:51-52 | the row count is the ceiling of bits / segment_length: the rows hold all the bits, and one row fewer would not; no bits means no rows |
| DataHandle.ReadBinaryFromAll | yyc/utils/data_handle.py:40-74 | returns `size` equal to the input byte count and a fresh matrix with exactly ceil(size*8/segment_length) rows of segment_length cells; every cell at flattened position p holds bit p of the byte stream, or 0 past its end |
| DataHandle.MatrixOfLayout | yyc/utils/data_handle.py:55-66 | every row has segment_length cells; the flattened matrix holds at least 8*size and fewer than 8*size + segment_length bits; its bit 8i+j is bit j (MSB first) of byte i; every position at or past 8*size is 0 |
| DataHandle.PaddingInLastRow | yyc/utils/data_handle.py:51-66 | for nonempty input the last row starts before bit 8*size, and every padding position falls in the last row |
| DataHandle.BigEndianBitsOf | yyc/utils/data_handle.py:60 | the value read back big-endian from the `width`-digit binary expansion of v is v |
| DataHandle.ByteValueOfByteBits | yyc/utils/data_handle.py:60 | repacking the 8 MSB-first bits of a byte gives the byte back |
| DataHandle.PackBytes | yyc/utils/data_handle.py:101-114 | at most `size` bytes; exactly `size` iff the matrix holds at least 8*size bits; byte k is the big-endian value of bits 8k..8k+7 |
| DataHandle.PackBytesSnoc | yyc/utils/data_handle.py:105-114 | one more bit adds a byte exactly when it completes a group of eight and fewer than `size` bytes were emitted; otherwise the output is unchanged |
| DataHandle.PackBytesLength | yyc/utils/data_handle.py:101-114 | exactly min(size, bits/8) bytes are written, so a matrix shorter than 8*size bits gives just its whole bytes |
| DataHandle.PackBytesPrefix | yyc/utils/data_handle.py:105-114 | a byte already emitted is unchanged when one more bit arrives |
| DataHandle.PackerStep | yyc/utils/data_handle.py:105-114 | one cell of the accumulator loop keeps the loop state: the bytes written are `PackBytes` of the bits consumed, written + remaining = size, and while bytes are allowed `temp_byte` is the value of the last `bit_index` bits |
| DataHandle.PackerStepByte | yyc/utils/data_handle.py:109-114 | the eighth bit, while bytes are allowed, emits a value below 256 and resets the partial byte |
| DataHandle.WriteAllFromBinary | yyc/utils/data_handle.py:101-114 | the bytes written by the accumulator loop over the rows are `PackBytes` of the flattened matrix and `size` |
| DataHandle.CodecRoundTrip | yyc/utils/data_handle.py:51-114 | for segment_length > 0, repacking the matrix read from data with size = len(data) gives data byte for byte |
| DataHandle.Utf8 | yyc/utils/data_handle.py:170 | `str.encode("utf-8")` of one symbol is 1 to 4 bytes; it is one byte, equal to the code point, iff the code point is below 0x80; otherwise every byte is at least 0x80 |
| DataHandle.WriteDnaFile | yyc/utils/data_handle.py:167-171 | the bytes written are `DnaFileBytes` of the sequences (each sequence's encoded symbols plus one newline, in input order); the input is returned unchanged |
| DataHandle.DnaFileBytes | yyc/utils/data_handle.py:167-170 | the file is empty exactly when there are no sequences, and a nonempty file ends with a newline |
| DataHandle.ConcatEndsWith | yyc/utils/data_handle.py:167-170 | joining nonempty lines that each end with a newline is empty exactly when there are no lines, and otherwise ends with a newline |
| DataHandle.LinesOfDnaFile | yyc/utils/data_handle.py:139 | `readlines()` of a written file gives back exactly the written lines, in order, when no symbol is a newline |
| DataHandle.LineEnd | yyc/utils/data_handle.py:139 | the first line ends just after the first newline, or at the end of the content if there is none |
| DataHandle.Lines | yyc/utils/data_handle.py:139 | the lines concatenate back to the content; none is empty; a newline occurs in a line only as its last byte; every line but the last ends with a newline |
| DataHandle.StripLeading | yyc/utils/data_handle.py:143 | removes exactly the leading ASCII whitespace: a suffix of the input, all removed bytes whitespace, the result does not start with whitespace |
| DataHandle.StripTrailing | yyc/utils/data_handle.py:143 | removes exactly the trailing ASCII whitespace: a prefix of the input, all removed bytes whitespace, the result does not end with whitespace |
| DataHandle.Strip | yyc/utils/data_handle.py:143 | no longer than the input; a nonempty result neither starts nor ends with whitespace; the result is empty exactly when every input byte is whitespace |
| DataHandle.CharsOf | yyc/utils/data_handle.py:143 | one symbol per byte, and symbol i has byte i as its code point (`chr`) |
| DataHandle.StripLine | yyc/utils/data_handle.py:143 | stripping a written line whose symbol bytes are not whitespace leaves exactly those bytes |
| DataHandle.ParseDnaFile | yyc/utils/data_handle.py:139-145 | one sequence per line of the content |
| DataHandle.ParsedSymbols | yyc/utils/data_handle.py:139-145 | sequence i of the parse is line i stripped, with symbol j having byte j of the stripped line as its code point |
| DataHandle.ReadDnaFile | yyc/utils/data_handle.py:136-145 | the sequences returned are `ParseDnaFile` of the content: one per line, in file order, each the stripped line with every byte mapped by `chr` |
| DataHandle.StripLines | yyc/utils/data_handle.py:141-145 | the loop appends, for each line in order, the stripped line mapped byte by byte to symbols: one result per line |
| DataHandle.ParseDnaFileIs | yyc/utils/data_handle.py:139-145 | a list holding, for each line of the content in order, its stripped and mapped bytes is the parse of the content |
| DataHandle.DnaFileRoundTrip | yyc/utils/data_handle.py:139-170 | reading back the file written for sequences of single-byte, non-whitespace symbols gives the sequences |
| Pipeline.HandleErrors | yyc/pipeline.py:52-56 | logs `InvalidInputPath` exactly when the input is falsy and `InvalidOutputPath` exactly when the output is falsy, input first, and nothing else |
| Pipeline.EncodeMatrix | yyc/pipeline.py:60-66 | `connect_all` (if need_index), then `add_for_matrix` (if verify is given), then `method.encode`; the stages run form a nonempty prefix of that order, all of them when no error is raised, and a stop is always a raised error |
| Pipeline.Encode | yyc/pipeline.py:52-71 | logs one error per falsy handle and goes on; the stages run are a prefix of read, connect_all?, add_for_matrix?, method.encode, save_model?, write, starting with the read; all of them when nothing fails; nothing is written when something fails; on success the input was readable, the matrix chain completed and what was written is the sequence file of its result |
| Pipeline.SaveAndWrite | yyc/pipeline.py:68-71 | adds save_model (if a model path is given) and write; the store gains the model whatever the output; the write fails, writing nothing, exactly for an empty output path or for `None` with at least one line; otherwise it writes the sequence file |
| Pipeline.EncodeFalsyHandles | yyc/pipeline.py:52-71 | a falsy input fails at the read; a fault from a handle with a readable input means the output is falsy, and every stage was reached; an empty output path always fails; `None` fails exactly when the completed chain produced a line; a successful run with `None` wrote nothing |
| Pipeline.EncodeSavesModel | yyc/pipeline.py:68-69 | the store gains `{method, verify}` at the model path exactly when a model path is given, the input is readable and no collaborator raised; otherwise it is unchanged |
| Pipeline.Configuration | yyc/pipeline.py:117-120 | with a truthy model path, the method and verify method come from the saved model (found iff the path is in the store); otherwise they are the ones passed |
| Pipeline.DecodeMatrix | yyc/pipeline.py:124-131 | `method.decode`, then `verify_for_matrix` (if verify), then `divide_all` and `sort_order` (if has_index); the stages run form a nonempty prefix of that order, all of them when no error is raised; on success the size is the one `method.decode` returned |
| Pipeline.DecodeWith | yyc/pipeline.py:122-133 | read, decode chain, write of `size` bytes; the stages run are a prefix of that order, all of them when nothing fails; a falsy input stops at the read, a missing method at `method.decode`, a falsy output only at the final write; an empty output path always fails; on success the bytes written are the first `size` bytes packed from the decoded matrix |
| Pipeline.WriteBytes | yyc/pipeline.py:133 | adds the write stage; it fails, writing nothing, exactly for an empty output path or for `None` with at least one byte to write; otherwise it writes the bytes |
| Pipeline.Decode | yyc/pipeline.py:108-133 | with no method and no model path it only logs and runs no stage; otherwise it logs falsy handles, loads the model for a truthy path (failing if there is none), and its stages are a prefix of load?, read, decode chain, write (all of them when nothing fails); nothing is written on failure; on success the bytes written are packed from the matrix that the configured method's decode chain produced |
| Pipeline.DecodeFalsyHandles | yyc/pipeline.py:110-133 | past the method check, a falsy input fails at the read; with no method and a falsy model path it fails at `method.decode`; a handle fault with a readable input means the output is falsy and every stage ran; an empty output path always fails; a successful run with `None` as output wrote nothing |
| Pipeline.DecodeModelOverrides | yyc/pipeline.py:117-120 | for a truthy model path, decode's result does not depend on the method or verify method passed in |
| Pipeline.MatrixRoundTrip | yyc/pipeline.py:60-131 | if the collaborators are inverse, the decode chain on the encode chain's output runs every stage and returns the original matrix and size |
| Pipeline.RoundTrip | yyc/pipeline.py:58-133 | if the collaborators are inverse and the method emits plain symbols, decoding the file of a completed encode (same method, verify and index flag) logs nothing, runs every stage and writes exactly the input bytes |
| Pipeline.RoundTripWithMethod | yyc/pipeline.py:108-133 | the same round trip through `decode`, given the method and verify method and no model path |
| Pipeline.RoundTripWithModel | yyc/pipeline.py:117-133 | the same round trip through `decode`, given only the model path encode saved to; whatever verify method is passed is ignored |

## Left out

- Logging and progress: these are modelled only as the list of errors logged. Message texts, the `Monitor` progress output and `need_log` are left out because they do not affect results. So is the warning about a high index proportion (yyc/utils/data_handle.py:68-71).
- Paths and streams: `open`, `close`, `os.path.getsize` and `BytesIO` seeking are left out; an input is its byte content and an output is the bytes written to it. A nonempty path that cannot be opened, and a stream other than `BytesIO` (for which `size` is never bound), are not modelled. Of the paths, only the falsy ones (`None`, `""`) are distinguished.
- Collaborators: the code of `index_operator`, `model_saver`, the encoding methods and the verify methods is not part of this model. They appear only as functions with assumed inverse contracts. A pickle that fails to load and a model without `method`/`verify` keys are outside the model; a path absent from the store fails as `NoModel`.
- In `encode`, saving to a path that cannot be opened is not modelled: `save_model` always succeeds.
- In `decode`, attribute errors from a verify or method object without the expected methods are not modelled.
- `segment_length == 0` is excluded by a precondition because the source raises `ZeroDivisionError` there. Negative lengths cannot be expressed, because the parameter is a `nat`.
- DataHandle.RowCount: `math.ceil(size * 8 / segment_length)` is computed in floating point; the model uses the exact integer ceiling, which differs only for sizes beyond 2^53 bits.
- DataHandle.WriteAllFromBinary: cells are bits (0 or 1). The source would also accept other integers and pack them arithmetically.
- Pipeline.Encode: a method of `None` is not modelled (the source raises `AttributeError` at `method.encode`); the model requires a method record.
- Pipeline.Encode and Pipeline.Decode distinguish `verify is not None` (encode) from truthy `verify` (decode) only as present or absent, because verify objects are always truthy.
- Pipeline.RoundTrip: whether `sort_order` restores the original row order (for example after the sequences were shuffled) depends on the index operator's internals. The model states it only through the assumed `IndexInverse` contract.
- DataHandle.DnaFileRoundTrip: multi-byte symbols are encoded as UTF-8 when written but read back one symbol per byte; the round trip is stated only for single-byte, non-whitespace symbols.
