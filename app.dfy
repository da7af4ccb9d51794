/** The fruit classifier web service: the `/predict` handler, which checks a
    JSON request and passes its two categorical features to a pre-trained
    classifier, and the constant description served at `/api/info`. */
module App {
  import opened PyValues
  import opened PyInt

  /** The two categorical features of a fruit: its colour (0 green, 1 red,
      2 orange) and its texture (0 smooth, 1 rough). */
  datatype FeatureVector = FeatureVector(couleur: int, texture: int) {
    /** The check of the handler: `couleur in [0, 1, 2]` and `texture in [0, 1]`. */
    predicate InDomain()
      ensures InDomain() <==> couleur in [0, 1, 2] && texture in [0, 1]
    {
      0 <= couleur <= 2 && 0 <= texture <= 1
    }
  }

  /** The feature vectors the handler lets through to the classifier. */
  type Features = f: FeatureVector | f.InDomain() witness FeatureVector(0, 0)

  /** The loaded classifier, seen from outside: `predict` yields the class
      code of the single row, or raises; `predictProba`, when the object has
      that method, yields the row of class probabilities, or raises. Both take
      only in-domain features, so every call the handler makes is in-domain by
      construction. */
  datatype Classifier = Classifier(
    predict: Features -> Outcome<int>,
    predictProba: Option<Features -> Outcome<seq<real>>>)

  /** The `probability` of a successful response: the integer 100 when no
      estimate could be had, otherwise the largest class probability `p`,
      which the service reports as `round(p * 100, 2)`. */
  datatype Probability = Certain | Estimated(maxProbability: real) {
    /** The reported percentage, rounding aside. */
    function Percent(): (r: real)
      ensures Certain? ==> r == 100.0
      ensures Estimated? && 0.0 <= maxProbability <= 1.0 ==> 0.0 <= r <= 100.0
      ensures Estimated? ==> (r == 100.0 <==> maxProbability == 1.0)
    {
      match this
      case Certain => 100.0
      case Estimated(p) => p * 100.0
    }
  }

  /** The `error` of a failed response: a fixed message of the handler, or
      the exception that reached the handler's catch-all. */
  datatype ErrorText = Message(text: string) | Caught(exception: Exception)

  /** The JSON envelope and its HTTP status. */
  datatype Response =
    | Failure(httpStatus: int, error: ErrorText)
    | Success(prediction: string, predictionCode: int, probability: Probability, input: Features)
  {
    /** The HTTP status; a success is sent with Flask's default 200. */
    function Status(): (status: int) {
      if Success? then 200 else httpStatus
    }

    /** The `success` member of the envelope. */
    predicate SuccessFlag() {
      Success?
    }
  }

  const MODEL_NOT_LOADED := Failure(500, Message("Modèle non chargé"))
  const MISSING_FIELDS := Failure(400, Message("Données manquantes (couleur et texture requis)"))
  const INVALID_VALUES := Failure(400, Message("Valeurs invalides"))

  /** The fruit name for a class code: 0 is an apple, every other code an orange. */
  function Label(code: int): (name: string)
    ensures name == "pomme" <==> code == 0
    ensures name == "pomme" || name == "orange"
  {
    if code == 0 then "pomme" else "orange"
  }

  /** The inner `try`: `predict_proba` and `max` of its row, with every failure
      (no such method, an exception, an empty row) giving the default 100. */
  function Confidence(classifier: Classifier, features: Features): (p: Probability)
    ensures p.Certain? <==>
      match classifier.predictProba
      case None => true
      case Some(proba) => proba(features).Raised? || proba(features).value == []
    ensures p.Estimated? ==> p.maxProbability in classifier.predictProba.value(features).value
    ensures p.Estimated? ==>
      forall x :: x in classifier.predictProba.value(features).value ==> x <= p.maxProbability
  {
    match classifier.predictProba
    case None => Certain
    case Some(proba) =>
      match proba(features)
      case Raised(_) => Certain
      case Returned(row) =>
        match Max(row)
        case None => Certain
        case Some(m) => Estimated(m)
  }

  /** The body of the handler's outer `try`, evaluated with the loaded
      classifier: it either returns a response or raises. */
  function Handle(classifier: Classifier, body: Outcome<Json>): (r: Outcome<Response>)
    ensures body.Raised? ==> r == Raised(body.error)
    ensures r.Returned? && r.value.Failure? ==> r.value == MISSING_FIELDS || r.value == INVALID_VALUES
    ensures r.Returned? && r.value.Success? ==>
      classifier.predict(r.value.input) == Returned(r.value.predictionCode)
      && r.value.prediction == Label(r.value.predictionCode)
      && r.value.probability == Confidence(classifier, r.value.input)
  {
    var data :- body;
    if !Truthy(data) then Returned(MISSING_FIELDS) else
    var hasCouleur :- Contains(data, "couleur");
    if !hasCouleur then Returned(MISSING_FIELDS) else
    // `data` is iterable here, so this membership test cannot raise.
    match Contains(data, "texture")
    case Raised(e) => Raised(e)
    case Returned(hasTexture) =>
      if !hasTexture then Returned(MISSING_FIELDS) else
      var rawCouleur :- GetItem(data, "couleur");
      var couleur :- ToInt(rawCouleur);
      // `data` is a dict holding both keys here, so this lookup cannot raise.
      match GetItem(data, "texture")
      case Raised(e) => Raised(e)
      case Returned(rawTexture) =>
        var texture :- ToInt(rawTexture);
        var features := FeatureVector(couleur, texture);
        if !features.InDomain() then Returned(INVALID_VALUES) else
        var code :- classifier.predict(features);
        Returned(Success(Label(code), code, Confidence(classifier, features), features))
  }

  /** POST /predict. `model` is what loading `model.pkl` left behind, `body`
      what `request.get_json()` returns or raises. */
  function Predict(model: Option<Classifier>, body: Outcome<Json>): (r: Response)
    ensures model.None? ==> r == MODEL_NOT_LOADED
    ensures r.Status() in {200, 400, 500}
    ensures r.SuccessFlag() <==> r.Status() == 200
    ensures r.Status() == 400 ==> r == MISSING_FIELDS || r == INVALID_VALUES
    ensures r.Success? ==> model.Some? && r.input.InDomain()
    ensures r.Success? ==> (r.prediction == "pomme" <==> r.predictionCode == 0)
    ensures r.Success? ==> (r.prediction == "orange" <==> r.predictionCode != 0)
    ensures r.Success? ==> model.value.predict(r.input) == Returned(r.predictionCode)
  {
    match model
    case None => MODEL_NOT_LOADED
    case Some(classifier) =>
      match Handle(classifier, body)
      case Returned(response) => response
      case Raised(e) => Failure(500, Caught(e))
  }

  /** One categorical entry of the `/api/info` description. */
  datatype Categorical = Categorical(kind: string, values: map<int, string>)

  /** The `/api/info` description. */
  datatype Info = Info(
    name: string,
    version: string,
    model: string,
    features: map<string, Categorical>,
    output: Categorical)

  /** GET /api/info: a constant, whether or not a model was loaded. */
  function ApiInfo(): (info: Info)
    ensures info.features.Keys == {"couleur", "texture"}
    ensures forall name :: name in info.features ==> info.features[name].kind == "categorical"
    ensures info.output.kind == "categorical"
  {
    Info(
      "Fruit Classifier API",
      "1.0",
      "DecisionTreeClassifier",
      map[
        "couleur" := Categorical("categorical", map[0 := "vert", 1 := "rouge", 2 := "orange"]),
        "texture" := Categorical("categorical", map[0 := "lisse", 1 := "rugueux"])],
      Categorical("categorical", map[0 := "pomme", 1 := "orange"]))
  }
}
