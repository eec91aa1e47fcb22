/** The three request handlers of the leaf-disease classification service:
    `/predict` validates an uploaded image, runs it through the loaded model
    and reports the predicted category; `/health` reports whether a model is
    loaded; `/test-upload` echoes what was uploaded. Each handler is a function
    from the request to the response it sends. The loaded model, image
    preprocessing and the network's forward pass are parameters. */
module App {
  import opened Python
  import opened PosixPath
  import opened Numpy
  import opened Multipart

  const ModelPath: string := "model_2_new_dataset.h5"

  /** The model's output classes, position by position. */
  const Categories: seq<string> := [
    "Healty", "Yellow Mosaic", "Sudden Death Syndrome", "Bacterial Pustule",
    "Rust", "Frogeye Leaf Spot", "Target Leaf Spot"
  ]

  const AllowedExtensions: set<string> := {".png", ".jpg", ".jpeg", ".gif"}

  const ImageField: string := "image"

  const ModelNotLoadedMessage: string := "Model not loaded. Please ensure the model file exists and is valid."
  const NoFilesMessage: string := "No files in request"
  const NoImageFieldMessage: string := "No image field in request. Please use \"image\" as the field name"
  const NoSelectedFileMessage: string := "No selected file"
  const EmptyFileMessage: string := "Empty file uploaded"
  const PreprocessMessagePrefix: string := "Error preprocessing image: "
  const InternalErrorMessage: string := "Internal server error while processing image"
  const UploadMissingMessage: string := "No image field in request"
  const EmptyBatchMessage: string := "index 0 is out of bounds for axis 0 with size 0"
  const ListIndexMessage: string := "list index out of range"

  /** The preprocessed image array of shape (1, 224, 224, 3), flattened; its
      numbers are not modelled. */
  type Tensor = seq<real>

  /** Decoding, resizing and normalising the uploaded bytes: returns the
      array or raises whatever the image libraries raise. */
  type Decoder = seq<byte> -> Outcome<Tensor>

  /** The loaded network's `predict`: one output row per image of the batch,
      or an exception. */
  type Model = Tensor -> Outcome<seq<seq<real>>>

  /** The JSON bodies the handlers send. */
  datatype Body =
    | Error(error: string)
      /** `{"error": "Invalid file type. Allowed types: " + ", ".join(allowed)}`,
          the names listed in the set's iteration order, which is unspecified. */
    | InvalidFileType(allowed: set<string>)
    | Prediction(category: string, confidence: real, predictions: map<string, real>)
    | HealthReport(status: string, message: string, modelPath: string)
    | UploadEcho(filename: string, contentType: Option<string>, size: nat)
    | UploadMissing(error: string, filesReceived: seq<string>, contentType: Option<string>)

  datatype Response = Response(status: int, body: Body)

  /** The body reports an error rather than a result. */
  predicate IsErrorBody(b: Body)
  {
    b.Error? || b.InvalidFileType? || b.UploadMissing?
  }

  // ---------------------------------------------------------------------
  // `/health`

  function HealthCheck(model: Option<Model>): (r: Response)
    ensures r.status == 200 && r.body.HealthReport?
    ensures r.body.status == "healthy" <==> model.Some?
    ensures r.body.status == "degraded" <==> model.None?
    ensures r.body.message == "Server is running. Model is " + (if model.Some? then "loaded" else "not loaded")
    ensures r.body.modelPath == ModelPath
  {
    var loaded := model.Some?;
    var modelStatus := if loaded then "loaded" else "not loaded";
    Response(200, HealthReport(if loaded then "healthy" else "degraded",
                               "Server is running. Model is " + modelStatus,
                               ModelPath))
  }

  // ---------------------------------------------------------------------
  // `/predict`: the extension check

  /** `os.path.splitext(filename)[1].lower() in allowed_extensions` */
  function AllowedExtension(filename: string): bool
  {
    Lower(Extension(filename)) in AllowedExtensions
  }

  /** A name without extension is refused: the empty string is not allowed. */
  lemma EmptyExtensionRejected(filename: string)
    requires Extension(filename) == []
    ensures !AllowedExtension(filename)
  {
    assert Lower([]) == [];
  }

  /** A file name is accepted exactly when some position starts its
      extension and that suffix, lowered, is an allowed one. */
  lemma AllowedExtensionCharacterized(filename: string)
    ensures AllowedExtension(filename) <==>
              exists i :: ExtensionDot(filename, i) && Lower(filename[i..]) in AllowedExtensions
  {
    ExtensionCharacterized(filename);
    assert Lower([]) !in AllowedExtensions;
  }

  /** The check ignores the case of ASCII letters: two names that lower to
      the same string are both accepted or both rejected. */
  lemma AllowedExtensionIgnoresCase(a: string, b: string)
    requires Lower(a) == Lower(b)
    ensures AllowedExtension(a) == AllowedExtension(b)
  {
    ExtensionOfLower(a);
    ExtensionOfLower(b);
    LowerIdempotent(Extension(a));
    LowerIdempotent(Extension(b));
  }

  /** A name made of a stem that is not all dots and a final `.ext` (after
      an optional directory part, with no separator in stem or extension and
      no further dot in the extension) is accepted exactly when `.ext`,
      lowered, is one of the allowed extensions. */
  lemma AllowedExtensionOfStem(dir: string, stem: string, ext: string)
    requires dir == [] || dir[|dir| - 1] == '/'
    requires '/' !in stem && HasNonDot(stem)
    requires |ext| > 0 && ext[0] == '.' && '/' !in ext && '.' !in ext[1..]
    ensures AllowedExtension(dir + stem + ext) <==> Lower(ext) in AllowedExtensions
  {
    ExtensionOfStem(dir, stem, ext);
  }

  /** A base name that is only dots followed by a word has no extension, so
      it is refused: `noext` and `.png` are both of this form. */
  lemma DotsOnlyBaseNameRejected(dir: string, dots: string, word: string)
    requires dir == [] || dir[|dir| - 1] == '/'
    requires forall k :: 0 <= k < |dots| ==> dots[k] == '.'
    requires '/' !in word && '.' !in word
    ensures !AllowedExtension(dir + dots + word)
  {
    NoExtensionAfterDotsOnly(dir, dots, word);
    EmptyExtensionRejected(dir + dots + word);
  }

  /** A name whose dots all lie in directory names is refused, as in
      `dir.png/file`. */
  lemma DirectoryDotsRejected(p: string)
    requires forall i :: 0 <= i < |p| && p[i] == '.' ==> exists j :: i < j < |p| && p[j] == '/'
    ensures !AllowedExtension(p)
  {
    assert Extension(p) == [] by {
      NoExtensionInDirectoryPart(p);
    }
    EmptyExtensionRejected(p);
  }

  /** An upper-case `.JPG` is accepted after any stem, as in `LEAF.JPG`. */
  lemma UpperCaseExample(stem: string)
    requires '/' !in stem && HasNonDot(stem)
    ensures AllowedExtension(stem + ".JPG")
  {
    AllowedExtensionOfStem("", stem, ".JPG");
    assert "" + stem == stem;
    assert Lower(".JPG") == ".jpg";
  }

  /** Only the final suffix counts, as in `a.tar.png`. */
  lemma DoubleExtensionExample(stem: string)
    requires '/' !in stem && HasNonDot(stem)
    ensures AllowedExtension(stem + ".tar" + ".png")
  {
    var tarStem := stem + ".tar";
    assert '/' !in tarStem && HasNonDot(tarStem) by {
      var k :| 0 <= k < |stem| && stem[k] != '.';
      assert tarStem[k] == stem[k];
      HasNonDotAt(tarStem, k);
    }
    AllowedExtensionOfStem("", tarStem, ".png");
    assert "" + tarStem == tarStem;
    assert Lower(".png") == ".png";
  }

  /** `.bmp` is refused after any stem, as in `leaf.bmp`. */
  lemma ForeignExtensionExample(stem: string)
    requires '/' !in stem && HasNonDot(stem)
    ensures !AllowedExtension(stem + ".bmp")
  {
    AllowedExtensionOfStem("", stem, ".bmp");
    assert "" + stem == stem;
    assert Lower(".bmp") == ".bmp";
  }

  /** The verdict on a name whose extension starts at position `i`. */
  lemma AllowedExtensionAt(p: string, i: int)
    requires ExtensionDot(p, i)
    ensures AllowedExtension(p) <==> Lower(p[i..]) in AllowedExtensions
  {
    ExtensionAt(p, i);
  }

  /** `LEAF.JPG` is accepted. */
  lemma LeafJpgAccepted()
    ensures AllowedExtension("LEAF.JPG")
  {
    var p := "LEAF.JPG";
    assert ExtensionDot(p, 4) by {
      assert p[0] != '.' && p[0] != '/';
      assert forall m :: 0 < m < 4 ==> p[m] != '/';
      assert forall j :: 4 < j < |p| ==> p[j] != '.' && p[j] != '/';
    }
    assert Lower(p[4..]) == ".jpg" by {
      assert p[4..] == ".JPG";
    }
    AllowedExtensionAt(p, 4);
  }

  /** `a.tar.png` is accepted: only the final suffix counts. */
  lemma TarPngAccepted()
    ensures AllowedExtension("a.tar.png")
  {
    var p := "a.tar.png";
    assert ExtensionDot(p, 5) by {
      assert p[0] != '.' && p[0] != '/';
      assert forall m :: 0 < m < 5 ==> p[m] != '/';
      assert forall j :: 5 < j < |p| ==> p[j] != '.' && p[j] != '/';
    }
    assert Lower(p[5..]) == ".png" by {
      assert p[5..] == ".png";
    }
    AllowedExtensionAt(p, 5);
  }

  /** `leaf.bmp` is refused. */
  lemma LeafBmpRejected()
    ensures !AllowedExtension("leaf.bmp")
  {
    var p := "leaf.bmp";
    assert ExtensionDot(p, 4) by {
      assert p[0] != '.' && p[0] != '/';
      assert forall m :: 0 < m < 4 ==> p[m] != '/';
      assert forall j :: 4 < j < |p| ==> p[j] != '.' && p[j] != '/';
    }
    assert Lower(p[4..]) !in AllowedExtensions by {
      assert p[4..] == ".bmp";
      assert Lower(".bmp")[1] == 'b';
      assert forall e :: e in AllowedExtensions ==> e[1] != 'b';
    }
    AllowedExtensionAt(p, 4);
  }

  /** `noext` has no extension and is refused. */
  lemma NoExtensionExample()
    ensures !AllowedExtension("noext")
  {
    DotsOnlyBaseNameRejected("", "", "noext");
    assert "" + "" + "noext" == "noext";
  }

  /** A leading dot does not start an extension. */
  lemma HiddenFileExample()
    ensures !AllowedExtension(".png")
  {
    DotsOnlyBaseNameRejected("", ".", "png");
    assert "" + "." + "png" == ".png";
  }

  lemma DirectoryExtensionExample()
    ensures !AllowedExtension("dir.png/file")
  {
    var p := "dir.png/file";
    assert forall i :: 0 <= i < |p| && p[i] == '.' ==> i == 3 && p[7] == '/';
    DirectoryDotsRejected(p);
  }

  // ---------------------------------------------------------------------
  // `/predict`: preprocessing, the forward pass and the result

  /** `preprocess_image`: whatever the image libraries raise comes back as a
      `ValueError` whose message names the original error. */
  function PreprocessImage(decode: Decoder, bytes: seq<byte>): (r: Outcome<Tensor>)
    ensures r.Raised? ==> r.exc.ValueError?
    ensures r.Raised? <==> decode(bytes).Raised?
    ensures r.Returned? ==> r == decode(bytes)
    ensures r.Raised? ==> r.exc.message == PreprocessMessagePrefix + Str(decode(bytes).exc)
  {
    match decode(bytes)
    case Returned(t) => Returned(t)
    case Raised(e) => Raised(ValueError(PreprocessMessagePrefix + Str(e)))
  }

  /** The body a successful prediction on output row `row` reports: the
      category of the first largest entry, that entry as the confidence, and
      each category paired with its entry as far as both lists reach. */
  ghost predicate DescribesRow(row: seq<real>, b: Body)
  {
    && b.Prediction?
    && (exists k :: IsFirstMax(row, k) && k < |Categories| && b.category == Categories[k] && b.confidence == row[k])
    && b.predictions.Keys == (set k | 0 <= k < Min(|Categories|, |row|) :: Categories[k])
    && forall k :: 0 <= k < Min(|Categories|, |row|) ==> b.predictions[Categories[k]] == row[k]
  }

  lemma CategoriesDistinct()
    ensures Distinct(Categories)
  {
  }

  /** Lines 138-150 on the batch `model.predict` returned: take row 0, its
      argmax, the category at that index and the zipped category map. */
  function PredictionBody(batch: seq<seq<real>>): (r: Outcome<Body>)
    ensures |batch| == 0 ==> r == Raised(IndexError(EmptyBatchMessage))
    ensures |batch| > 0 && |batch[0]| == 0 ==> r == Raised(ValueError(EmptyArgMaxMessage))
    ensures |batch| > 0 ==> forall k :: IsFirstMax(batch[0], k) ==>
              (k < |Categories| ==> r.Returned? && DescribesRow(batch[0], r.value))
              && (k >= |Categories| ==> r == Raised(IndexError(ListIndexMessage)))
    ensures r.Returned? ==> |batch| > 0 && DescribesRow(batch[0], r.value)
  {
    if |batch| == 0 then Raised(IndexError(EmptyBatchMessage))
    else
      var row := batch[0];
      match NpArgMax(row)
      case Raised(e) => Raised(e)
      case Returned(k) =>
        if k >= |Categories| then Raised(IndexError(ListIndexMessage))
        else
          var b := Prediction(Categories[k], row[k], ZipDict(Categories, row));
          assert DescribesRow(row, b) by {
            CategoriesDistinct();
            forall j | 0 <= j < Min(|Categories|, |row|)
              ensures b.predictions[Categories[j]] == row[j]
            {
              ZipDictAt(Categories, row, j);
            }
          }
          assert forall k' :: IsFirstMax(row, k') ==> k' == k by {
            forall k' | IsFirstMax(row, k') ensures k' == k {
              FirstMaxUnique(row, k, k');
            }
          }
          Returned(b)
  }

  /** Preprocess the bytes, run the model and shape its output; any step may
      raise. */
  function Classify(model: Model, decode: Decoder, bytes: seq<byte>): (r: Outcome<Body>)
    ensures r.Returned? ==> r.value.Prediction?
  {
    match PreprocessImage(decode, bytes)
    case Raised(e) => Raised(e)
    case Returned(t) =>
      match model(t)
      case Raised(e) => Raised(e)
      case Returned(batch) => PredictionBody(batch)
  }

  /** The two `except` clauses: a `ValueError` is the client's fault and its
      message is sent back; any other exception gives a generic 500 that
      leaks nothing about its cause. */
  function ExceptionResponse(e: Exception): (r: Response)
    ensures r.body.Error?
    ensures r.status == 400 <==> e.ValueError?
    ensures r.status == 400 ==> r.body.error == Str(e)
    ensures r.status != 400 ==> r == Response(500, Error(InternalErrorMessage))
  {
    match e
    case ValueError(m) => Response(400, Error(m))
    case _ => Response(500, Error(InternalErrorMessage))
  }

  /** Every validation step of `/predict` after the model check passes: an
      `image` part is present, with a file name, an allowed extension and
      some bytes. */
  predicate Admissible(files: seq<Field>)
  {
    match Get(files, ImageField)
    case None => false
    case Some(part) => part.filename != "" && AllowedExtension(part.filename) && |part.content| > 0
  }

  /** `/predict`: the validation chain in the source's order, stopping at the
      first failure, then classification with its exceptions mapped to
      responses. */
  function Predict(model: Option<Model>, files: seq<Field>, decode: Decoder): (r: Response)
    ensures r.status in {200, 400, 500, 503}
    ensures r.status == 200 <==> r.body.Prediction?
    ensures r.status != 200 <==> IsErrorBody(r.body)
    ensures r.status == 503 <==> model.None?
    ensures model.Some? && files == [] ==> r == Response(400, Error(NoFilesMessage))
    ensures model.Some? && files != [] && ImageField !in Keys(files) ==> r == Response(400, Error(NoImageFieldMessage))
    ensures model.Some? && Get(files, ImageField).Some? && Get(files, ImageField).value.filename == "" ==>
              r == Response(400, Error(NoSelectedFileMessage))
    ensures model.Some? && Get(files, ImageField).Some? && Get(files, ImageField).value.filename != ""
              && !AllowedExtension(Get(files, ImageField).value.filename) ==>
              r == Response(400, InvalidFileType(AllowedExtensions))
    ensures r.status == 200 ==> model.Some? && Admissible(files)
  {
    if model.None? then Response(503, Error(ModelNotLoadedMessage))
    else if files == [] then Response(400, Error(NoFilesMessage))
    else
      match Get(files, ImageField)
      case None => Response(400, Error(NoImageFieldMessage))
      case Some(part) =>
        if part.filename == "" then Response(400, Error(NoSelectedFileMessage))
        else if !AllowedExtension(part.filename) then Response(400, InvalidFileType(AllowedExtensions))
        else if |part.content| == 0 then Response(400, Error(EmptyFileMessage))
        else
          var c := Classify(model.value, decode, part.content);
          match c
          case Returned(b) => Response(200, b)
          case Raised(e) => ExceptionResponse(e)
  }

  /** Without a model the answer is 503 whatever the request holds. */
  lemma NoModelIs503(files: seq<Field>, decode: Decoder)
    ensures Predict(None, files, decode) == Response(503, Error(ModelNotLoadedMessage))
  {
  }

  /** An `image` part with bytes but no file name is refused before its
      extension is checked or its bytes are read. */
  lemma EmptyFileNameIgnoresContent(model: Option<Model>, files: seq<Field>, decode: Decoder)
    requires model.Some?
    requires Get(files, ImageField).Some? && Get(files, ImageField).value.filename == ""
    ensures Predict(model, files, decode) == Response(400, Error(NoSelectedFileMessage))
  {
  }

  /** An image part with an allowed name and no bytes is refused. */
  lemma EmptyContentIs400(model: Option<Model>, files: seq<Field>, decode: Decoder)
    requires model.Some?
    requires Get(files, ImageField).Some?
    requires Get(files, ImageField).value.filename != ""
    requires AllowedExtension(Get(files, ImageField).value.filename)
    requires Get(files, ImageField).value.content == []
    ensures Predict(model, files, decode) == Response(400, Error(EmptyFileMessage))
  {
  }

  /** A request that fails any validation step never reaches preprocessing or
      the network: its response is the same whatever they would do. */
  lemma RejectedRequestConsultsNoOracle(m1: Option<Model>, m2: Option<Model>, files: seq<Field>, d1: Decoder, d2: Decoder)
    requires m1.None? == m2.None?
    requires !Admissible(files)
    ensures Predict(m1, files, d1) == Predict(m2, files, d2)
    ensures Predict(m1, files, d1).status != 200
  {
  }

  /** Once the request is admissible, the response is what classification
      yields for the first `image` part's bytes. */
  lemma AdmissibleRequestIsClassified(model: Option<Model>, files: seq<Field>, decode: Decoder)
    requires model.Some? && Admissible(files)
    ensures var bytes := Get(files, ImageField).value.content;
            Predict(model, files, decode) ==
              match Classify(model.value, decode, bytes)
              case Returned(b) => Response(200, b)
              case Raised(e) => ExceptionResponse(e)
  {
  }

  /** A preprocessing failure on an admissible request is a 400 whose message
      names the underlying error. */
  lemma PreprocessFailureIs400(model: Option<Model>, files: seq<Field>, decode: Decoder)
    requires model.Some? && Admissible(files)
    requires decode(Get(files, ImageField).value.content).Raised?
    ensures var e := decode(Get(files, ImageField).value.content).exc;
            Predict(model, files, decode) == Response(400, Error(PreprocessMessagePrefix + Str(e)))
  {
  }

  /** An exception from the network itself: a `ValueError` is sent back as a
      400 with its message, anything else becomes the generic 500. */
  lemma ModelFailureResponse(model: Option<Model>, files: seq<Field>, decode: Decoder)
    requires model.Some? && Admissible(files)
    requires decode(Get(files, ImageField).value.content).Returned?
    requires model.value(decode(Get(files, ImageField).value.content).value).Raised?
    ensures var e := model.value(decode(Get(files, ImageField).value.content).value).exc;
            Predict(model, files, decode) ==
              if e.ValueError? then Response(400, Error(Str(e))) else Response(500, Error(InternalErrorMessage))
  {
  }

  /** What an admissible request whose image the network returns `batch` for
      gets back: a 200 describing row 0 when its first largest entry lies
      within the category list, a 500 when it lies beyond, a 400 for an empty
      row and a 500 for an empty batch. */
  lemma PredictionOutcome(model: Option<Model>, files: seq<Field>, decode: Decoder, batch: seq<seq<real>>)
    requires model.Some? && Admissible(files)
    requires decode(Get(files, ImageField).value.content).Returned?
    requires model.value(decode(Get(files, ImageField).value.content).value) == Returned(batch)
    ensures var r := Predict(model, files, decode);
            && (|batch| == 0 ==> r == Response(500, Error(InternalErrorMessage)))
            && (|batch| > 0 && |batch[0]| == 0 ==> r == Response(400, Error(EmptyArgMaxMessage)))
            && (|batch| > 0 && |batch[0]| > 0 ==>
                  var k := ArgMax(batch[0]);
                  (k < |Categories| ==> r.status == 200 && DescribesRow(batch[0], r.body))
                  && (k >= |Categories| ==> r == Response(500, Error(InternalErrorMessage))))
  {
    if |batch| > 0 && |batch[0]| > 0 {
      var k := ArgMax(batch[0]);
      assert IsFirstMax(batch[0], k);
    }
  }

  /** The confidence of a successful prediction is its largest probability
      and is one of the probabilities reported. */
  lemma ConfidenceIsLargestPrediction(row: seq<real>, b: Body)
    requires DescribesRow(row, b)
    ensures forall c :: c in b.predictions ==> b.predictions[c] <= b.confidence
    ensures b.confidence in b.predictions.Values
  {
    var k :| IsFirstMax(row, k) && k < |Categories| && b.category == Categories[k] && b.confidence == row[k];
    forall c | c in b.predictions ensures b.predictions[c] <= b.confidence {
      var j :| 0 <= j < Min(|Categories|, |row|) && Categories[j] == c;
      assert b.predictions[Categories[j]] == row[j];
    }
    assert Categories[k] in b.predictions;
    assert b.predictions[Categories[k]] == row[k];
  }

  /** A network that returns one probability per category yields a map with
      exactly the seven category names as keys. */
  lemma SevenOutputsGiveEveryCategory(row: seq<real>, b: Body)
    requires |row| == |Categories|
    requires DescribesRow(row, b)
    ensures b.predictions.Keys == set c | c in Categories
    ensures |b.predictions| == 7
  {
    var ks := set k | 0 <= k < |Categories| :: Categories[k];
    assert ks == set c | c in Categories;
    assert b.predictions.Keys == ks;
    CategoriesDistinct();
    DistinctElementCount(Categories);
  }

  // ---------------------------------------------------------------------
  // `/test-upload`

  /** `/test-upload`: without an `image` field, a 400 listing the field names
      received and the request's content type; otherwise the first `image`
      part's name, declared type and byte count. */
  function TestUpload(files: seq<Field>, requestContentType: Option<string>): (r: Response)
    ensures r.status == 400 <==> ImageField !in Keys(files)
    ensures r.status == 400 ==> r.body == UploadMissing(UploadMissingMessage, Keys(files), requestContentType)
    ensures r.status != 400 ==> r.status == 200 && r.body.UploadEcho?
    ensures r.status == 200 ==>
              exists i :: && FirstWithName(files, ImageField, i)
                          && r.body.filename == files[i].file.filename
                          && r.body.contentType == files[i].file.contentType
                          && r.body.size == |files[i].file.content|
  {
    match Get(files, ImageField)
    case None => Response(400, UploadMissing(UploadMissingMessage, Keys(files), requestContentType))
    case Some(part) => Response(200, UploadEcho(part.filename, part.contentType, |part.content|))
  }

  /** A single upload under the field `photo` is refused and reported as
      exactly `["photo"]`. */
  lemma TestUploadWrongFieldExample(part: FilePart, ct: Option<string>)
    ensures TestUpload([Field("photo", part)], ct).status == 400
    ensures TestUpload([Field("photo", part)], ct).body.filesReceived == ["photo"]
  {
    assert Keys([Field("photo", part)]) == ["photo"];
  }

  /** No upload at all is refused by `/predict` with "No files in request". */
  lemma PredictWithoutFilesExample(model: Model, decode: Decoder)
    ensures Predict(Some(model), [], decode) == Response(400, Error(NoFilesMessage))
  {
  }
}
