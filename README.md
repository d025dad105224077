# Image_Translation_py core, modelled in Dafny

This project models the core of the Image_Translation_py web application and proves
properties of that model. The core is made of five parts:

- **Operator builder and reconstruction** (`CODE/utils/reconstruction.py`). The system matrix
  is the sparse identity plus a random perturbation with five candidate entries per row,
  assembled from COO triples. It is stacked with `λ·I` and solved by LSQR against the
  image padded with zeros. The solution is reshaped to the image, clipped to `0..255`
  and cast to `uint8`.
- **Quality metrics** (`CODE/utils/image_processing.py`). These are the resize rule of
  `preprocess_image`, the mean squared error, a global SSIM, and the Sobel edge maps
  whose correlation is the edge-preservation metric. `extract_quality_metrics` fills a
  fresh three-slot array with these three values.
- **Upload validation** (`CODE/utils/image_validation.py`). This covers the extension
  whitelist, the inclusive 10 MB limit (measured by seeking to the end and back), and
  the order of the three guards of `process_upload`.
- **Web application** (`CODE/NEW/app.py`). This covers the six colour and edge
  operations, the output path `base_operation.ext`, the `/process` request flow, and
  the in-memory user registry of `/register` and `/login`.
- **Data-URI helpers** (`CODE/image_utils.py`). `encode_image` produces
  `data:image/png;base64,<payload>`, and `decode_image` base64-decodes the second
  comma-separated field. `process_image` applies `hsv` or `canny` between the two.

Supporting modules model the library behaviour the core depends on:

- `Common`: Python's `find`, `rfind`, `split` and `join` on strings.
- `Grid`: row-major `flatten` and `reshape`.
- `Sparse`: scipy's canonical CSR matrices. This covers COO assembly with duplicates
  summed, identity, scalar multiple, sum, vertical stacking and the flat
  `indptr`/`indices`/`data` arrays.
- `PosixPath`: `os.path.splitext` and `os.path.join`.
- `Base64`: `b64encode`, and the non-strict `a2b_base64` decoder behind `b64decode`.

Random draws, the LSQR solver, OpenCV calls, `sqrt` and `corrcoef` are parameters of
the functions that use them.

## Model

| member | source | states |
|---|---|---|
| Reconstruction.RepeatRows | CODE/utils/reconstruction.py:18 | one row label per candidate, `n * 5` in all |
| Reconstruction.RepeatRowsAt | CODE/utils/reconstruction.py:18 | candidate `j` carries row `i` exactly when `5i <= j < 5i + 5`, and every label is below `n` |
| Reconstruction.CandidatesPerRow | CODE/utils/reconstruction.py:14-18 | every row receives exactly `nnz_per_row = 5` candidate triples |
| Reconstruction.CooSumOfRow | CODE/utils/reconstruction.py:18-22 | the COO sum at `(i, c)` over the flattened draws is the sum of row `i`'s drawn values whose drawn column is `c` |
| Reconstruction.CooDraws | CODE/utils/reconstruction.py:15-20 | the flattened draws are `5n` triples with rows and columns inside `[0, n)`, five per row |
| Reconstruction.Perturbation | CODE/utils/reconstruction.py:22 | the perturbation is a valid `n` by `n` CSR matrix with at most 5 stored entries per row |
| Reconstruction.CreateSparseSystemMatrix | CODE/utils/reconstruction.py:6-24 | the operator is a valid `n` by `n` matrix, `n = h * w`, with between 1 and 6 stored entries per row |
| Reconstruction.OperatorEntry | CODE/utils/reconstruction.py:8-24 | entry `(i, c)` is 1 on the diagonal plus the sum of row `i`'s drawn values in column `c`; duplicates add up, including into the diagonal |
| Reconstruction.OperatorRowColumns | CODE/utils/reconstruction.py:11-24 | row `i` stores exactly column `i` and the drawn columns, each once, in increasing order, all inside `[0, n)` |
| Reconstruction.OperatorCsrBounds | CODE/utils/reconstruction.py:22-24 | the flat CSR arrays have `n + 1` offsets starting at 0, 1 to 6 entries per row, and every column index inside `[0, n)` |
| Reconstruction.RegularizedSystem | CODE/utils/reconstruction.py:41-44 | the stacked system has `2n` rows; the first `n` are the operator's rows, and row `n + i` holds only `λ` at column `i` |
| Reconstruction.RegularizationRows | CODE/utils/reconstruction.py:41-44 | every regularization row stores one entry, `λ` at its own column, and 0 elsewhere |
| Reconstruction.PaddedRhs | CODE/utils/reconstruction.py:45 | the right-hand side is `b` followed by `n` zeros |
| Reconstruction.ClipToUint8 | CODE/utils/reconstruction.py:54 | values at or below 0 give 0, values at or above 255 give 255, and values in between are truncated |
| Reconstruction.ClipKeepsBytes | CODE/utils/reconstruction.py:54 | whole numbers in `0..255` pass through unchanged |
| Reconstruction.Solution | CODE/utils/reconstruction.py:35-48 | the solver's vector for the regularized system has `h * w` entries |
| Reconstruction.ReconstructImage | CODE/utils/reconstruction.py:26-56 | the output has the input image's shape |
| Reconstruction.ReconstructPixel | CODE/utils/reconstruction.py:51-54 | output pixel `(r, c)` is the clipped, truncated solution value at row-major position `r * w + c` |
| Reconstruction.ReconstructExactInput | CODE/utils/reconstruction.py:38-56 | when the solver returns the flattened input and the input holds whole numbers in `0..255`, the output equals the input |
| Reconstruction.DiagnosticsDiscarded | CODE/utils/reconstruction.py:48-56 | `istop`, `itn` and `r1norm` do not reach the output: solvers that agree on `x` give the same image |
| Sparse.Insert | CODE/utils/reconstruction.py:22 | adding a value at a column keeps the row canonical, adds the column, and adds the value to exactly that column |
| Sparse.AddRows | CODE/utils/reconstruction.py:24 | the merged row is canonical, stores the union of the columns, and reads as the entrywise sum |
| Sparse.MergeFirstShape | CODE/utils/reconstruction.py:24 | taking the smaller first column keeps the merged row canonical with the union of columns |
| Sparse.MergeFirstGet | CODE/utils/reconstruction.py:24 | taking the smaller first column keeps the entrywise sum |
| Sparse.MergeBothShape | CODE/utils/reconstruction.py:24 | merging two cells of the same column keeps the row canonical with the union of columns |
| Sparse.MergeBothGet | CODE/utils/reconstruction.py:24 | merging two cells of the same column into their sum keeps the entrywise sum |
| Sparse.Identity | CODE/utils/reconstruction.py:11 | `eye(n)` is valid, with one stored entry per row, 1 on the diagonal and 0 elsewhere |
| Sparse.Scale | CODE/utils/reconstruction.py:41 | a scalar multiple keeps the structure and multiplies every entry |
| Sparse.ScaleRow | CODE/utils/reconstruction.py:41 | a scaled row keeps its length and columns, and every entry is multiplied |
| Sparse.Add | CODE/utils/reconstruction.py:24 | the sum of two same-shaped matrices is valid, and every entry is the sum of the two entries |
| Sparse.VStack | CODE/utils/reconstruction.py:44 | stacking keeps the first matrix's rows, then the second's |
| Sparse.CooRow | CODE/utils/reconstruction.py:22 | a row assembled from COO triples is canonical, stores exactly the columns of its triples, and sums duplicate triples |
| Sparse.FromCoo | CODE/utils/reconstruction.py:22 | `csr_matrix((data, (rows, cols)), shape)` is valid, and every entry is the sum of the matching triples |
| Sparse.AppendRowFlattens | CODE/utils/reconstruction.py:22 | appending a row's columns and values after the last offset keeps the flat arrays exact |
| Sparse.ToCsr | CODE/utils/reconstruction.py:22 | the flat arrays start at offset 0, each row occupies its own slice, and that slice holds the row's columns and values |
| Sparse.RowOfPosition | CODE/utils/reconstruction.py:22 | every flat position belongs to the row whose offset slice contains it |
| Sparse.ToCsrBounds | CODE/utils/reconstruction.py:22 | every flat column index of a valid matrix lies inside the matrix |
| Grid.Flatten | CODE/utils/reconstruction.py:38 | `image.flatten()`, and the `.ravel()` of the edge metric; stated by `FlattenLength`, `FlattenCell` and `FlattenInjective` |
| Grid.Reshape | CODE/utils/reconstruction.py:51 | `x.reshape(h, w)` is an `h` by `w` grid whose row-major flattening is `x` |
| Grid.FlattenLength | CODE/utils/reconstruction.py:38 | flattening an `h` by `w` grid gives `h * w` values |
| Grid.FlattenCell | CODE/utils/reconstruction.py:38 | position `r * w + c` of the flattening is pixel `(r, c)` |
| Grid.ReshapeFlatten | CODE/utils/reconstruction.py:38-51 | reshaping the flattening gives back the grid |
| Grid.FlattenInjective | CODE/utils/reconstruction.py:38 | two grids of the same shape flatten to the same values exactly when they are equal |
| ImageProcessing.ResizeTarget | CODE/utils/image_processing.py:12-15 | the size `preprocess_image` resizes to; stated by `ResizeKeepsSmall` and `ResizeShrinks` |
| ImageProcessing.ResizeKeepsSmall | CODE/utils/image_processing.py:12 | an image whose longer side is at most `max_size` keeps its size |
| ImageProcessing.ScaledSide | CODE/utils/image_processing.py:13-14 | a scaled side is `dim * max_size / longest` rounded down; it is at most `max_size` and at most `dim`, and exactly `max_size` for the longer side |
| ImageProcessing.ResizeShrinks | CODE/utils/image_processing.py:12-15 | an oversized image gets both sides at most `max_size`, the longer side exactly `max_size`, neither side grows, and each side is the proportional size rounded down |
| ImageProcessing.Mean | CODE/utils/image_processing.py:46-47 | `np.mean`; its sign is stated by `MeanSign` |
| ImageProcessing.Variance | CODE/utils/image_processing.py:49-50 | `np.var`, the mean squared deviation; stated by `VarianceNonnegative` |
| ImageProcessing.Covariance | CODE/utils/image_processing.py:51 | `np.mean((img1 - mu1) * (img2 - mu2))`; stated by `CovarianceSelf` and `CovarianceSymmetric` |
| ImageProcessing.SumNonnegative | CODE/utils/image_processing.py:28 | a sum of non-negative terms is non-negative, and zero exactly when every term is zero |
| ImageProcessing.VarianceNonnegative | CODE/utils/image_processing.py:49-50 | `np.var` is never negative |
| ImageProcessing.CovarianceSelf | CODE/utils/image_processing.py:49-51 | the covariance of an array with itself is its variance |
| ImageProcessing.CovarianceSymmetric | CODE/utils/image_processing.py:51 | the covariance does not depend on the order of its arguments |
| ImageProcessing.SquaredErrorsProperties | CODE/utils/image_processing.py:28 | squared errors are non-negative and symmetric, and all zero exactly when the arrays are equal |
| ImageProcessing.MeanSign | CODE/utils/image_processing.py:28 | a mean has its sum's sign and is zero exactly when the sum is |
| ImageProcessing.MeanSquaredError | CODE/utils/image_processing.py:28 | metric 0; stated by `MeanSquaredErrorProperties` |
| ImageProcessing.MeanSquaredErrorProperties | CODE/utils/image_processing.py:28 | the mean squared error is non-negative and symmetric, and zero exactly when the images are equal |
| ImageProcessing.SsimDenominatorPositive | CODE/utils/image_processing.py:40-54 | `C1` and `C2` are positive, so the SSIM denominator is positive and the division is defined |
| ImageProcessing.SsimFormula | CODE/utils/image_processing.py:53-54 | the SSIM quotient of the five statistics; stated by `SsimDenominatorPositive`, `SsimFormulaSelf` and `SsimFormulaSymmetric` |
| ImageProcessing.SsimFormulaSelf | CODE/utils/image_processing.py:53-54 | equal means, equal variances and a covariance equal to the variance give exactly 1 |
| ImageProcessing.SsimFormulaSymmetric | CODE/utils/image_processing.py:53-54 | swapping the two arrays' statistics leaves the formula unchanged |
| ImageProcessing.Ssim | CODE/utils/image_processing.py:38-56 | `calculate_structural_similarity` on flat arrays; stated by `SsimSelf`, `SsimSymmetric` and `SsimDenominatorPositive` |
| ImageProcessing.StructuralSimilarity | CODE/utils/image_processing.py:31 | metric 1, SSIM of the flattened grids; stated by `MetricsOfIdenticalImages` |
| ImageProcessing.SsimSelf | CODE/utils/image_processing.py:38-56 | an array's SSIM with itself is 1 |
| ImageProcessing.SsimSymmetric | CODE/utils/image_processing.py:38-56 | SSIM does not depend on the order of its arguments |
| ImageProcessing.Reflect | CODE/utils/image_processing.py:61 | the `reflect` boundary reads index -1 at 0 and index `n` at `n - 1`, and leaves inner indices alone |
| ImageProcessing.CorrelateRows | CODE/utils/image_processing.py:61 | a three-tap correlation along axis 0 keeps the image shape |
| ImageProcessing.CorrelateCols | CODE/utils/image_processing.py:62 | a three-tap correlation along axis 1 keeps the image shape |
| ImageProcessing.Sobel | CODE/utils/image_processing.py:61-62 | a Sobel response keeps the image shape |
| ImageProcessing.SobelShiftInvariant | CODE/utils/image_processing.py:61-62 | adding a constant to every pixel leaves both Sobel responses unchanged, borders included |
| ImageProcessing.CorrelateZero | CODE/utils/image_processing.py:61-62 | correlating the zero image along either axis gives the zero image |
| ImageProcessing.SobelConstantZero | CODE/utils/image_processing.py:61-62 | both Sobel responses of a constant image are zero everywhere |
| ImageProcessing.EdgeMap | CODE/utils/image_processing.py:61-63 | the gradient-magnitude map keeps the image shape |
| ImageProcessing.EdgePreservation | CODE/utils/image_processing.py:58-70 | metric 2, the correlation of the two edge maps; stated by `EdgeMapOfConstant` and `MetricsOfIdenticalImages` |
| ImageProcessing.EdgeMapOfConstant | CODE/utils/image_processing.py:61-67 | a constant image has the constant edge map `magnitude(0, 0)` |
| ImageProcessing.ExtractQualityMetrics | CODE/utils/image_processing.py:19-36 | returns a fresh array of length 3 holding the MSE, the SSIM and the edge correlation, in that order |
| ImageProcessing.MetricsOfIdenticalImages | CODE/utils/image_processing.py:19-36 | an image compared with itself gets error 0, similarity 1, and its edge map's correlation with itself |
| ImageValidation.LowerAscii | CODE/utils/image_validation.py:10 | lowering keeps the length and lowers each character |
| ImageValidation.AllowedFile | CODE/utils/image_validation.py:7-10 | `allowed_file`; its verdict is characterised by `AllowedFileIff` and `AllowedFileCaseInsensitive` |
| ImageValidation.AllowedFileIff | CODE/utils/image_validation.py:7-10 | a name is accepted exactly when it has a '.' that no other '.' follows, and an allowed extension after it |
| ImageValidation.NoDotRejected | CODE/utils/image_validation.py:9 | a name without a '.' is rejected |
| ImageValidation.AllowedFileCaseInsensitive | CODE/utils/image_validation.py:10 | lower-casing the whole name does not change the verdict |
| ImageValidation.AllowedFileAccepts | CODE/utils/image_validation.py:5-10 | `a.JPG` and `photo.jpeg` are accepted |
| ImageValidation.AllowedFileRejects | CODE/utils/image_validation.py:7-10 | `a.png.exe`, `a.` and `png` are rejected |
| ImageValidation.SizeWithinLimit | CODE/utils/image_validation.py:16-19 | the size passes exactly when it is at most `10 * 1024 * 1024` bytes, inclusive |
| ImageValidation.UploadFile.ValidateImageSize | CODE/utils/image_validation.py:12-19 | passes exactly when the size is at most 10 MB, and leaves the stream at position 0 |
| ImageValidation.UploadVerdict | CODE/utils/image_validation.py:21-30 | the guards in order: a missing file, then the extension, then the size; each error occurs exactly under its condition |
| ImageValidation.ProcessUpload | CODE/utils/image_validation.py:21-32 | returns the file exactly when all guards pass, otherwise the first failing guard's message; the stream is rewound only when the size check ran |
| ImageValidation.Message | CODE/utils/image_validation.py:24-30 | every rejection raises a non-empty message; `MessageIdentifiesGuard` shows that the message names the guard |
| ImageValidation.MessageIdentifiesGuard | CODE/utils/image_validation.py:24-30 | the three messages differ, so the raised text determines which guard failed |
| Common.RFind | CODE/utils/image_validation.py:10 | the result is the index of the last occurrence, or -1 exactly when the character is absent |
| Common.Find | CODE/image_utils.py:6 | the result is the index of the first occurrence, or -1 exactly when the character is absent |
| Common.Split | CODE/image_utils.py:6 | at least one piece, none holding the separator, and the whole string when the separator is absent |
| Common.JoinSplit | CODE/image_utils.py:6 | joining the pieces of a split with the separator gives back the string |
| Common.SplitHead | CODE/image_utils.py:6 | the first piece is everything before the first separator |
| Common.SplitSecond | CODE/image_utils.py:6 | piece 1 is the text between the first separator and the next one, or the end |
| Base64.EncodeValue | CODE/image_utils.py:12 | the 64-character alphabet of `b64encode`; stated by `DecodeEncodeValue` |
| Base64.DecodeChar | CODE/image_utils.py:6 | only alphabet characters decode, each to the value below 64 whose character it is; every other character is skipped |
| Base64.DecodeEncodeValue | CODE/image_utils.py:6-12 | every 6-bit value's character decodes back to the value and is neither the pad nor a comma |
| Base64.Encode | CODE/image_utils.py:12 | `b64encode`; stated by `EncodeShape` and `DecodeEncode` |
| Base64.GroupsEncoded | CODE/image_utils.py:12 | every character of a full, two-byte or one-byte group is an alphabet character or the pad |
| Base64.EncodeShape | CODE/image_utils.py:12-13 | the encoding has 4 characters per started 3 bytes, each an alphabet character or the pad, and never a comma |
| Base64.EncodeLength | CODE/image_utils.py:12 | the encoding has `(len + 2) / 3 * 4` characters |
| Base64.EncodeAlphabet | CODE/image_utils.py:12 | every character of the encoding is an alphabet character or the pad |
| Base64.Run | CODE/image_utils.py:6 | the non-strict decoding loop; stated by the `Run` lemmas below |
| Base64.Decode | CODE/image_utils.py:6 | `b64decode` of text: non-ASCII text is an error, otherwise the loop runs; stated by `DecodeEncode` and the example lemmas |
| Base64.Absorb | CODE/image_utils.py:6 | one data character advances the quantum position and resets the pad count; it appends one byte except at the first position and leaves earlier bytes alone |
| Base64.RunExtends | CODE/image_utils.py:6 | decoding only appends to the bytes already written |
| Base64.RunChar | CODE/image_utils.py:6 | an alphabet character is absorbed |
| Base64.RunSkip | CODE/image_utils.py:6 | a character outside the alphabet is skipped |
| Base64.RunPad | CODE/image_utils.py:6 | a pad ends decoding when it completes the quantum, and is otherwise counted or skipped |
| Base64.RunQuantum | CODE/image_utils.py:6-12 | decoding an encoded quantum writes its three bytes and returns to the start of a quantum |
| Base64.RunFinalTwo | CODE/image_utils.py:6-12 | decoding a final two-byte group writes the bytes and stops at its pad |
| Base64.RunFinalOne | CODE/image_utils.py:6-12 | decoding a final one-byte group writes the byte and stops at its pads |
| Base64.RunEncode | CODE/image_utils.py:6-12 | decoding an encoding followed by any text writes the encoded bytes; the text is ignored after padding and decoded after them otherwise |
| Base64.RunEncodeQuantum | CODE/image_utils.py:6-12 | the same, for an encoding that starts with a full quantum |
| Base64.DecodeEncode | CODE/image_utils.py:6-12 | `b64decode(b64encode(b)) == b` for every byte string |
| Base64.DecodeExamplesValid | CODE/image_utils.py:6 | `QUJD` decodes to `ABC`, and `QQ==` to `A` |
| Base64.DecodeExampleAfterPadding | CODE/image_utils.py:6 | text after a complete padding is ignored |
| Base64.DecodeExampleSkipped | CODE/image_utils.py:6 | a newline and a `*` are skipped; a pad at quantum position 2 is counted, so the second pad after the `*` completes the quantum, and without the first pad the padding is incorrect |
| Base64.DecodeExamplesInvalid | CODE/image_utils.py:6 | a lone data character, missing padding and a non-ASCII character are errors |
| ImageUtils.EncodeImage | CODE/image_utils.py:10-13 | `encode_image`; stated by `EncodeImageFraming` |
| ImageUtils.DecodeImage | CODE/image_utils.py:5-8 | `decode_image`, in which `imdecode` raises on an empty buffer; stated by `DecodeEncodeImage`, `NoCommaNoPayload`, `OnlySecondFieldDecoded` and `EmptyPayloadRejected` |
| ImageUtils.EmptyPayloadRejected | CODE/image_utils.py:5-8 | `data:image/png;base64,` with nothing after it fails in `imdecode`, and `process_image` reports that failure whatever the operation |
| ImageUtils.EncodeImageFraming | CODE/image_utils.py:10-13 | the encoding is the prefix followed by a comma-free payload, and splitting it at ',' gives exactly the media type and the payload |
| ImageUtils.SplitTwo | CODE/image_utils.py:6 | splitting `a,b`, with no ',' in `a` or `b`, gives `[a, b]` |
| ImageUtils.DecodeEncodeImage | CODE/image_utils.py:5-13 | decoding an encoded image gives what `imdecode` makes of the encoded bytes, or the empty-buffer error when there are none, so an image the codec round-trips comes back unchanged |
| ImageUtils.NoCommaNoPayload | CODE/image_utils.py:6 | text without a ',' fails with `IndexError` |
| ImageUtils.OnlySecondFieldDecoded | CODE/image_utils.py:6-8 | only the text between the first and the second ',' is decoded, and bytes reach `imdecode` only when there is at least one |
| ImageUtils.SecondField | CODE/image_utils.py:6 | the field at index 1 of `head,payload,tail` is `payload` |
| ImageUtils.ProcessImage | CODE/image_utils.py:23-32 | a reply is produced only for the keys `hsv` and `canny` and a payload that decodes |
| ImageUtils.ProcessImageOutcome | CODE/image_utils.py:23-32 | decoding failures, the empty buffer included, come first; then any key but `hsv` and `canny` fails the lookup; with those keys, bytes `imdecode` cannot read fail in the transform, and otherwise the reply is the transformed image, framed |
| ImageUtils.ProcessEncodedImage | CODE/image_utils.py:23-32 | a request built by `encode_image` from a round-tripping image with non-empty PNG bytes is answered with the transformed image, framed |
| PosixPath.SplitExt | CODE/NEW/app.py:41 | stem and extension concatenate to the path; there is an extension exactly when the last '.' follows the last '/' and something other than a '.' precedes it in the final component, and then the stem is everything before that '.' |
| PosixPath.SplitExtExamples | CODE/NEW/app.py:41 | `.bashrc` and `a.b/c` have no extension; `a/.b.c` splits as (`a/.b`, `.c`) and `x.tar.gz` as (`x.tar`, `.gz`) |
| PosixPath.Join | CODE/NEW/app.py:100 | an absolute second part replaces the first; otherwise the parts are concatenated, with a '/' between them unless the first is empty or already ends with one |
| PosixPath.JoinExamples | CODE/NEW/app.py:100 | `static/uploads` joined with `x.png` is `static/uploads/x.png`, with or without the trailing '/', and an absolute name replaces the folder |
| PosixPath.RFindAppendFree | CODE/NEW/app.py:41 | appending text free of a character leaves that character's last occurrence in place |
| PosixPath.SplitExtInsert | CODE/NEW/app.py:41-42 | text free of '.' and '/' inserted before the extension moves the split point past itself and keeps the extension |
| PosixPath.SplitExtAppend | CODE/NEW/app.py:41-42 | without an extension, appending such text leaves none |
| PosixPath.SplitExtInsertBeforeExt | CODE/NEW/app.py:41-42 | with an extension, such text goes between the stem and the extension |
| App.ParseOperation | CODE/NEW/app.py:23-38 | a recognised name gives the operation of that name; `ParseOperationIff` states both directions |
| App.ParseOperationIff | CODE/NEW/app.py:23-38 | the chain accepts exactly the six names, each giving its own operation |
| App.NamePlain | CODE/NEW/app.py:42 | no operation name holds a '.' or a '/' |
| App.OutputPath | CODE/NEW/app.py:41-42 | `f"{base}_{operation}{ext}"`; stated by `OutputPathShape` |
| App.OutputPathShape | CODE/NEW/app.py:41-42 | the output path is the input's stem, `_`, the operation and the input's extension; it splits back into that stem and extension, and it differs from the input |
| App.ProcessImage | CODE/NEW/app.py:17-45 | `process_image`, with `imwrite` raising as an error; stated by `UnreadableFailsFirst` and `ProcessImageOutcome` |
| App.UnreadableFailsFirst | CODE/NEW/app.py:18-21 | an unreadable image fails with the same message whatever the operation |
| App.ProcessImageOutcome | CODE/NEW/app.py:17-45 | with a readable image, a name outside the six fails with the name in the message; for the six names the transformed image (the image itself for `rgb`) is written to the derived path, and the call fails exactly when that write raises, with the write's message |
| App.ProcessRequest | CODE/NEW/app.py:91-109 | the 400 reply occurs exactly when the request has no `image` part |
| App.OperationField | CODE/NEW/app.py:97 | `request.form.get('operation', 'hsv')`; stated by `DefaultOperationIsHsv` |
| App.DefaultOperationIsHsv | CODE/NEW/app.py:96-109 | a request without an operation field is processed as `hsv`: an unreadable upload or a raising write is answered with its error, otherwise with the derived `_hsv` path |
| App.LoginAccepted | CODE/NEW/app.py:66-71 | the login check; stated by `RegisterThenLogin` |
| App.RegisterNext | CODE/NEW/app.py:81-87 | the registration step; stated by `RegisterNextSpec` and `FirstPasswordWins` |
| App.RegisterNextSpec | CODE/NEW/app.py:81-87 | registration succeeds exactly for a new name, adds exactly that mapping, never alters an existing one, and leaves the registry unchanged when it fails |
| App.RegisterThenLogin | CODE/NEW/app.py:66-87 | after registering, login succeeds with the same password only, and other users' logins are unaffected |
| App.FirstPasswordWins | CODE/NEW/app.py:81-85 | registering a name a second time fails and keeps the first password |
| App.UserRegistry.Register | CODE/NEW/app.py:81-87 | the registry and the outcome are those of `RegisterNext` on the old registry |
| App.UserRegistry.Login | CODE/NEW/app.py:66 | accepts exactly a registered name with its password, and changes nothing |
| App.RegistrationSession | CODE/NEW/app.py:66-87 | register, register again and log in: the first call succeeds, the second fails, the first password logs in, and the registry holds the first password |

## Left out

- `np.random.randint` and `np.random.normal` draw from numpy's global random state, with
  no seed set. The model takes the draws as parameters, the `(n, 5)` arrays `indices`
  and `data`, so the seed and the distribution are outside the model.
- `reconstruct_image` checks neither the sign of `λ` nor the image's shape. The model
  accepts any real `λ`.
- `lsqr` returns `istop`, `itn` and `r1norm`, and `reconstruct_image` discards them. It
  always returns the clipped image. `Reconstruction.DiagnosticsDiscarded` states this.
- ImageProcessing.ExtractQualityMetrics and Reconstruction.ReconstructImage: only 2-D
  grayscale arrays are modelled, and the metrics need two non-empty arrays of equal
  shape. Several other inputs are not modelled:
  - numpy broadcasting of compatible shapes in `reconstruction - reference`, such as
    `(1, w)` against `(h, w)`;
  - the `ValueError` for incompatible shapes;
  - an `(h, w, 3)` colour array in `reconstruct_image`, where the operator has `h * w`
    columns against a right-hand side of length `3hw`, and `lsqr` raises.
- `scipy.sparse.linalg.lsqr` is a function parameter. Its only assumed property is
  that it returns a vector with one entry per column. Convergence, the tolerances and
  the diagnostics are not modelled.
- Numbers are exact reals. `float32` and `float64` rounding, NaN and infinity are not
  modelled, so neither is `np.corrcoef` giving NaN for a constant edge map.
- `scipy`'s canonical sum drops entries whose sum is exactly 0.0. The model keeps
  them as stored zeros, so stored-entry counts can differ while every entry value
  agrees.
- Reconstruction.ClipToUint8: values strictly between two integers are truncated, and
  NaN input is not modelled.
- `sqrt(gx**2 + gy**2)` and `np.corrcoef(..)[0, 1]` are function parameters of the edge
  metric.
- ImageProcessing.ResizeShrinks: this computes `int(dim * (max_size / longest))` in exact
  arithmetic. Floating-point rounding of the ratio, which can make a side one less,
  is not modelled.
- In `preprocess_image`, the grayscale conversion, Lanczos resampling and
  `np.array(image)` are PIL operations and are not modelled. Only the target size is.
- The training and inference model in `CODE/NEW/models/quality_predictor.py` is not part
  of this model.
- OpenCV (`imread`, `imwrite`, `imencode`, `imdecode`, `cvtColor`, `GaussianBlur`,
  `Canny`) is represented by function parameters. A raising `imwrite` is an error
  whose message the parameter gives; `imwrite`'s boolean result is ignored by the code
  and is not modelled, so a write that returns `False` counts as success, as it does
  in the code.
- Flask plumbing is not modelled: templates, `flash`, redirects, `file.save`, HTTP
  status codes, `app.run`, and the `/`, `/index`, `/chart` and `/performance` routes,
  which only render templates.
- `/process` passes the operation's error message through as the 500 reply. Other
  exceptions, such as an OS error from `file.save`, are not modelled.
- `str.lower()` is modelled on ASCII letters only. Non-ASCII case mapping cannot change
  the verdict for the four ASCII extensions, except for characters whose lower-case
  form is ASCII (e.g. the Kelvin sign).
- ImageValidation.Message: for a rejected type, the message lists the extensions in a
  fixed order. Python's set iteration order is not modelled.
- `Image.open(file)` is not modelled: a successful `process_upload` returns the
  validated file itself.
- An uploaded file is modelled by its name, its size and its stream position. `not
  file` is false exactly for a present file with a non-empty name.
- `os.path.splitext` is modelled as a function over the last '/' and the last '.'.
  Its loop over leading dots is expressed as the `HasNonDot` condition.
- `os.path.join` is modelled for two components on POSIX only.
- `Base64.Absorb` writes the decoder's bitwise `or` of disjoint bit fields as a sum.
- `b64decode` also accepts `bytes`. Only `str` input is modelled, with the ASCII check
  that `str` input gets.
