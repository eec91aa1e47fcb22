# Soybean leaf-disease API: the request decisions

The service is a small Flask application (`app/main.py`). At startup it loads a Keras
image classifier. It then answers three routes:

- `/predict` takes an upload in the multipart field `image` and runs it through a chain
  of checks, stopping at the first one that fails:
  1. a model is loaded (503 otherwise);
  2. some file was uploaded;
  3. an `image` field is present;
  4. the file has a name;
  5. the name has an allowed extension (`.png`, `.jpg`, `.jpeg`, `.gif`, ignoring case);
  6. the file has bytes.

  Every other failure is a 400. If all checks pass, the image is preprocessed and
  classified. The reply names the category of the first largest output, that output as
  the confidence, and a category→probability map. Inside the handler, a `ValueError`
  becomes a 400 carrying its message; any other exception becomes a generic 500.
- `/health` always answers 200. It reports `healthy` or `degraded` depending on whether
  a model is loaded.
- `/test-upload` echoes the first `image` part's name, content type and size. Without
  that field it answers 400, listing the field names it did receive.

## Structure

- **`python.dfy`** (module `Python`): the Python pieces the handlers rely on:
  - `Option`;
  - the exceptions they tell apart, and `str(e)`;
  - `Outcome`, for a call that returns or raises;
  - `str.lower` on ASCII letters;
  - the dict built by `{k: v for k, v in zip(ks, vs)}`.
- **`posixpath.dfy`** (module `PosixPath`): `os.path.splitext` with POSIX separators.
  `str.rfind` finds the last `/` and the last `.`. The last dot starts the extension
  only when it follows the last slash and the base name has a non-dot character before
  it. So a leading dot never starts one.
- **`numpy.dfy`** (module `Numpy`): `np.argmax` over a row, i.e. the first position of a
  largest entry. An empty row raises `ValueError`.
- **`multipart.dfy`** (module `Multipart`): `request.files`, modelled as the ordered
  sequence of (field name, file part) pairs in arrival order, not as a map. The web
  framework's multi-dictionary behaves like this:
  - `files[name]` is the first part under that name;
  - `name in files` asks whether any part has it;
  - `list(files.keys())` lists each name once, in the order its first part arrived.
- **`app.dfy`** (module `App`): the three handlers, as functions from the request to the
  response they send. A response is a status plus a body; each body is a constructor
  holding the JSON fields.

Image preprocessing and the network's forward pass are oracles, passed as parameters:

- a `Decoder` maps the uploaded bytes to an image array or an exception;
- a `Model` maps that array to a batch of output rows or an exception.

`preprocess_image` wraps any exception of the decoder into a `ValueError` whose message
starts with `Error preprocessing image: `. The loaded model is an `Option<Model>`.

Two failure paths on the result follow numpy's and Python's behaviour:

- An empty batch makes `predictions[0]` raise `IndexError`, which gives the generic 500.
- An argmax index of 7 or more makes `CATEGORIES[k]` raise `IndexError`, which also
  gives the 500.

The network may itself raise a `ValueError`, for example on an input of the wrong shape.
That is sent back as a 400 with its message, as the handler does.

In the source the 503 branch is reachable only when the Keras loader returns `None`.
`load_ml_model` either returns the loaded model or ends the process. The model keeps the
branch as the handler is written.

## Model

| member | source | states |
|---|---|---|
| App.HealthCheck | app/main.py:79-86 | always 200; status `healthy` exactly when a model is loaded and `degraded` exactly when none is; the message says `loaded` or `not loaded` accordingly; the model path is `model_2_new_dataset.h5` |
| App.Predict | app/main.py:88-160 | the status is one of 200, 400, 500, 503; 503 exactly when no model is loaded; 200 exactly when the body is a prediction, any other status carries an error body; no files gives "No files in request", files without an `image` field give the "No image field" 400, an empty name gives "No selected file", a disallowed extension gives the invalid-type 400 listing the allowed set; a 200 only follows a request that passed every check |
| App.NoModelIs503 | app/main.py:90-94 | without a model the response is the 503 "Model not loaded" error whatever files are uploaded and whatever preprocessing would do |
| App.PredictWithoutFilesExample | app/main.py:96-100 | a request with no uploads at all gets the 400 "No files in request" |
| App.EmptyFileNameIgnoresContent | app/main.py:111-115 | an `image` part with an empty name is refused with "No selected file", whatever its extension or bytes |
| App.EmptyContentIs400 | app/main.py:125-130 | a named, allowed `image` part without bytes gets "Empty file uploaded" for every decoder, so preprocessing is never consulted |
| App.RejectedRequestConsultsNoOracle | app/main.py:90-130 | a request failing any check gets the same non-200 response whatever model and decoder are supplied (as long as both or neither have a model) |
| App.Classify | app/main.py:132-150 | preprocessing, the forward pass and the shaping of row 0 either raise or yield a prediction body, never another kind of body |
| App.AdmissibleRequestIsClassified | app/main.py:132-160 | a request passing every check gets exactly what classifying the first `image` part's bytes yields: 200 with the body, or the exception mapped to its response |
| App.PreprocessFailureIs400 | app/main.py:51-69 | when decoding fails on an admissible request, the response is a 400 whose message is "Error preprocessing image: " followed by the underlying message |
| App.ModelFailureResponse | app/main.py:135 | when the network raises on an admissible request, a `ValueError` comes back as 400 with its message and anything else as the generic 500 |
| App.PredictionOutcome | app/main.py:135-160 | for the batch the network returns: an empty batch gives 500; an empty row 0 gives the argmax 400; otherwise a first largest index below 7 gives a 200 describing row 0 and one of 7 or more gives the generic 500 |
| App.PreprocessImage | app/main.py:51-69 | returns the decoder's array unchanged when it succeeds; fails exactly when the decoder fails, and then only with a `ValueError` whose message is the prefix followed by the original message |
| App.PredictionBody | app/main.py:137-150 | an empty batch raises `IndexError`; an empty row 0 raises the argmax `ValueError`; for the first largest index `k` of row 0, `k < 7` gives a prediction of `CATEGORIES[k]` with confidence `row[k]` and the zipped map, and `k >= 7` raises `IndexError("list index out of range")` |
| App.ConfidenceIsLargestPrediction | app/main.py:138-149 | the confidence of a successful prediction is at least every probability in the map and is itself one of them |
| App.SevenOutputsGiveEveryCategory | app/main.py:146-149 | a row of exactly seven outputs gives a map whose keys are exactly the seven category names |
| App.ExceptionResponse | app/main.py:152-160 | the status is 400 exactly for a `ValueError`, with `str(ve)` as the error; every other exception gives 500 with the generic message |
| App.AllowedExtensionCharacterized | app/main.py:118-120 | `AllowedExtension`, the check of lines 118-120, accepts a name exactly when some position starts its extension and the lowered suffix from there is one of `.png`, `.jpg`, `.jpeg`, `.gif` |
| App.AllowedExtensionIgnoresCase | app/main.py:119-120 | two names equal up to ASCII case are accepted or refused together |
| App.AllowedExtensionAt | app/main.py:118-120 | when position `i` starts the extension, the name is accepted exactly when the lowered suffix from `i` is allowed |
| App.AllowedExtensionOfStem | app/main.py:118-120 | a stem that is not all dots followed by `.ext` (no separator, no further dot) is accepted exactly when `.ext` lowered is allowed |
| App.EmptyExtensionRejected | app/main.py:118-123 | a name without extension is refused |
| App.DotsOnlyBaseNameRejected | app/main.py:118-123 | a base name of only dots followed by a dot-free word has no extension and is refused |
| App.DirectoryDotsRejected | app/main.py:118-123 | a name whose every dot lies before some later `/` is refused |
| App.UpperCaseExample | app/main.py:119-120 | `<stem>.JPG` is accepted for every stem that is not all dots |
| App.LeafJpgAccepted | app/main.py:119-120 | `LEAF.JPG` is accepted |
| App.DoubleExtensionExample | app/main.py:119-120 | `<stem>.tar.png` is accepted for every stem that is not all dots: only the final suffix counts |
| App.TarPngAccepted | app/main.py:119-120 | `a.tar.png` is accepted |
| App.ForeignExtensionExample | app/main.py:119-123 | `<stem>.bmp` is refused for every stem that is not all dots |
| App.LeafBmpRejected | app/main.py:119-123 | `leaf.bmp` is refused |
| App.NoExtensionExample | app/main.py:119-123 | `noext` is refused |
| App.HiddenFileExample | app/main.py:119-123 | `.png` is refused: a leading dot does not start an extension |
| App.DirectoryExtensionExample | app/main.py:119-123 | `dir.png/file` is refused: the dot lies in a directory name |
| App.TestUpload | app/main.py:171-184 | 400 exactly when no field is named `image`, and then the body lists the received field names once each with the request's content type; otherwise 200 with the first `image` part's file name, declared content type and byte count |
| App.TestUploadWrongFieldExample | app/main.py:171-176 | a single upload under `photo` is refused and reported as `["photo"]` |
| PosixPath.RFind | app/main.py:119 | the result is -1 or a position holding the character, and no later position holds it |
| PosixPath.SplitExt | app/main.py:119 | the root and the extension concatenate back to the path |
| PosixPath.ExtensionAt | app/main.py:119 | when a position starts an extension, the extension is the suffix from there |
| PosixPath.ExtensionNone | app/main.py:119 | when no position starts an extension, the extension is empty |
| PosixPath.ExtensionCharacterized | app/main.py:119 | `Extension`, the second half of `splitext`, is the suffix from the position that starts an extension, and empty exactly when no position does |
| PosixPath.ExtensionOfStem | app/main.py:119 | a stem that is not all dots followed by a dot and a dot-free, slash-free word has that dot-and-word as its extension |
| PosixPath.NoExtensionAfterDotsOnly | app/main.py:119 | leading dots of a base name start no extension |
| PosixPath.NoExtensionInDirectoryPart | app/main.py:119 | dots inside directory names start no extension |
| PosixPath.ExtensionOfLower | app/main.py:119 | lowering the name and then taking the extension equals taking the extension and then lowering it |
| Python.Lower | app/main.py:119 | same length; no upper-case ASCII letter remains; every other character is kept; each upper-case letter moves to its lower-case partner |
| Python.LowerIdempotent | app/main.py:119 | lowering twice equals lowering once |
| Python.ZipDict | app/main.py:146-149 | the keys are exactly the first min(\|ks\|, \|vs\|) keys |
| Python.ZipDictAt | app/main.py:146-149 | with distinct keys, key `ks[k]` maps to `vs[k]` for every `k` both sequences reach |
| Python.DistinctElementCount | app/main.py:49 | a sequence without repeats has as many distinct elements as positions |
| App.CategoriesDistinct | app/main.py:49 | the seven category names are pairwise different |
| Numpy.ArgMax | app/main.py:138 | on a non-empty row, the result is a position of a largest entry and every earlier entry is strictly smaller |
| Numpy.FirstMaxUnique | app/main.py:138 | the first largest position is unique |
| Numpy.NpArgMax | app/main.py:138 | raises exactly on an empty row, with the `ValueError` numpy gives; otherwise returns the first largest position |
| Multipart.Get | app/main.py:103-109 | absent exactly when no part has the name; otherwise the first part under it |
| Multipart.FirstIndex | app/main.py:174 | below the length exactly when some part has the name, and then the position of the first such part |
| Multipart.Keys | app/main.py:174 | no name repeats, and a name is listed exactly when some part carries it |
| Multipart.KeysInArrivalOrder | app/main.py:174 | the names are listed in the order their first parts arrived |

## Left out

- Downloading and loading the model (`download_model`, `load_ml_model`, `sys.exit`): these are network and filesystem effects. The loaded model is a parameter.
- PIL decoding, resizing, `img_to_array`, `preprocess_input` and the forward pass: these are library numerics. They are oracles that return a value or raise.
- Floating point: outputs are `real`. So `float32`/`float` conversion, NaN (which changes what `np.argmax` picks) and JSON number formatting are not modelled.
- The exact text of the invalid-type message: it joins a Python set, whose order is unspecified. The body carries the allowed set instead.
- The constant `"success": true` field of the prediction and upload bodies: it is the same in every response, so it is not part of the model.
- `str.lower` beyond ASCII: non-ASCII letters keep their case in the model.
- Windows path rules (`ntpath`): the service runs with POSIX `os.path`.
- A part without a file name (`filename` of `None`): the parser always supplies a string for file parts, so the name is a `string`.
- I/O errors from `image_file.read()`: the upload's bytes are given. Hence the 500 branch of `/test-upload` and a read failure in `/predict` are not modelled.
- Flask routing, CORS, multipart parsing and `jsonify`: responses are plain values.
- The diagnostic logging (the `print` calls in both handlers): it has no effect on the response.
- `is_port_in_use` and the `PORT`/`app.run` startup: socket I/O.
