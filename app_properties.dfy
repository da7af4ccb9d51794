/** What the `/predict` handler promises, stated against a direct description
    of the requests it accepts, and how `/api/info` agrees with the handler. */
module AppProperties {
  import opened PyValues
  import opened PyInt
  import opened App

  /** The feature vector a request carries when its body is a dict holding
      both keys whose values `int()` accepts; None for any other request. */
  function RequestFeatures(body: Outcome<Json>): (features: Option<FeatureVector>) {
    if body.Returned? && body.value.Obj? then
      var fields := body.value.fields;
      if "couleur" in fields && "texture" in fields
         && ToInt(fields["couleur"]).Returned? && ToInt(fields["texture"]).Returned?
      then Some(FeatureVector(ToInt(fields["couleur"]).value, ToInt(fields["texture"]).value))
      else None
    else None
  }

  /** Without a model every request fails with 500, whatever its body. */
  lemma ModelAbsentIsServerError(body: Outcome<Json>)
    ensures Predict(None, body).Status() == 500 && !Predict(None, body).SuccessFlag()
    ensures Predict(None, body).error == Message("Modèle non chargé")
  {
  }

  /** A request succeeds exactly when it carries in-domain features and the
      classifier returns a code for them; the response then echoes the
      coerced features and reports the classifier's code, its label and the
      confidence, whether or not probabilities could be estimated. */
  lemma SuccessExactly(classifier: Classifier, body: Outcome<Json>)
    ensures Predict(Some(classifier), body).Success? <==>
      RequestFeatures(body).Some? && RequestFeatures(body).value.InDomain()
      && classifier.predict(RequestFeatures(body).value).Returned?
    ensures Predict(Some(classifier), body).Success? ==>
      var r := Predict(Some(classifier), body);
      r.input == RequestFeatures(body).value
      && classifier.predict(r.input) == Returned(r.predictionCode)
      && r.prediction == Label(r.predictionCode)
      && r.probability == Confidence(classifier, r.input)
  {
    var r := Predict(Some(classifier), body);
    if body.Returned? && body.value.Obj? {
      var fields := body.value.fields;
      if "couleur" in fields && "texture" in fields {
        assert Truthy(body.value);
        assert Contains(body.value, "couleur") == Returned(true);
        assert Contains(body.value, "texture") == Returned(true);
      }
    } else if body.Returned? && r.Success? {
      NonDictNeverSucceeds(classifier, body.value);
    }
  }

  /** A body that is not a dict never reaches the classifier. */
  lemma NonDictNeverSucceeds(classifier: Classifier, data: Json)
    requires !data.Obj?
    ensures !Predict(Some(classifier), Returned(data)).Success?
  {
    if Truthy(data) && Contains(data, "couleur") == Returned(true) {
      assert GetItem(data, "couleur").Raised?;
    }
  }

  /** The 400 "missing fields" answer is given exactly when the body is falsy,
      or lacks "couleur", or has "couleur" but lacks "texture". */
  lemma MissingFieldsExactly(classifier: Classifier, body: Outcome<Json>)
    ensures Predict(Some(classifier), body) == MISSING_FIELDS <==>
      body.Returned? &&
      (!Truthy(body.value)
       || Contains(body.value, "couleur") == Returned(false)
       || (Contains(body.value, "couleur") == Returned(true)
           && Contains(body.value, "texture") == Returned(false)))
  {
    if body.Returned? && Truthy(body.value) && Contains(body.value, "couleur") == Returned(true)
       && Contains(body.value, "texture") == Returned(true) {
      var data := body.value;
      var r := Predict(Some(classifier), body);
      if data.Obj? {
        if RequestFeatures(body).Some? {
          AnswerOnFeatures(classifier, body);
        } else {
          CoercionFailureIsServerError(classifier, data.fields);
        }
      } else {
        assert GetItem(data, "couleur").Raised?;
      }
    }
  }

  /** For a dict body: "missing fields" exactly when a key is absent. */
  lemma MissingKeyIsClientError(classifier: Classifier, fields: map<string, Json>)
    ensures Predict(Some(classifier), Returned(Obj(fields))) == MISSING_FIELDS <==>
      "couleur" !in fields || "texture" !in fields
  {
    MissingFieldsExactly(classifier, Returned(Obj(fields)));
  }

  /** Once a request carries features, the answer depends only on them:
      "invalid values" outside the domains, otherwise the classifier's verdict. */
  lemma AnswerOnFeatures(classifier: Classifier, body: Outcome<Json>)
    requires RequestFeatures(body).Some?
    ensures
      var features := RequestFeatures(body).value;
      Predict(Some(classifier), body) ==
        if !features.InDomain() then INVALID_VALUES
        else match classifier.predict(features)
          case Raised(e) => Failure(500, Caught(e))
          case Returned(code) => Success(Label(code), code, Confidence(classifier, features), features)
  {
    assert Truthy(body.value);
    assert Contains(body.value, "couleur") == Returned(true);
    assert Contains(body.value, "texture") == Returned(true);
  }

  /** A request that carries no features never gets "invalid values". */
  lemma NoFeaturesNoInvalidValues(classifier: Classifier, body: Outcome<Json>)
    requires RequestFeatures(body).None?
    ensures Predict(Some(classifier), body) != INVALID_VALUES
  {
    if body.Returned? {
      var data := body.value;
      if !data.Obj? {
        if Truthy(data) && Contains(data, "couleur") == Returned(true) {
          assert GetItem(data, "couleur").Raised?;
        }
      } else if "couleur" in data.fields && "texture" in data.fields {
        CoercionFailureIsServerError(classifier, data.fields);
      } else {
        MissingKeyIsClientError(classifier, data.fields);
      }
    }
  }

  /** The 400 "invalid values" answer is given exactly when both values
      coerce but the pair lies outside the declared domains. */
  lemma InvalidValuesExactly(classifier: Classifier, body: Outcome<Json>)
    ensures Predict(Some(classifier), body) == INVALID_VALUES <==>
      RequestFeatures(body).Some? && !RequestFeatures(body).value.InDomain()
  {
    if RequestFeatures(body).Some? {
      AnswerOnFeatures(classifier, body);
    } else {
      NoFeaturesNoInvalidValues(classifier, body);
    }
  }

  /** A 400 answer never consults the classifier: any other classifier gives
      the same answer to the same request. */
  lemma ClientErrorIgnoresClassifier(c1: Classifier, c2: Classifier, body: Outcome<Json>)
    requires Predict(Some(c1), body).Status() == 400
    ensures Predict(Some(c2), body) == Predict(Some(c1), body)
  {
    var r := Predict(Some(c1), body);
    if r == MISSING_FIELDS {
      MissingFieldsExactly(c1, body);
      MissingFieldsExactly(c2, body);
    } else {
      InvalidValuesExactly(c1, body);
      InvalidValuesExactly(c2, body);
    }
  }

  /** A value that `int()` refuses gives 500 with the raised exception, never
      a 400, even when the other value is out of its domain. "couleur" is
      coerced first, so its exception wins. */
  lemma CoercionFailureIsServerError(classifier: Classifier, fields: map<string, Json>)
    requires "couleur" in fields && "texture" in fields
    requires ToInt(fields["couleur"]).Raised? || ToInt(fields["texture"]).Raised?
    ensures Predict(Some(classifier), Returned(Obj(fields))) ==
      Failure(500, Caught(if ToInt(fields["couleur"]).Raised? then ToInt(fields["couleur"]).error
                          else ToInt(fields["texture"]).error))
  {
    assert Truthy(Obj(fields));
  }

  /** A truthy scalar body makes the membership test raise: 500. */
  lemma ScalarBodyIsServerError(classifier: Classifier, data: Json)
    requires data.Bool? || data.Int? || data.Num?
    requires Truthy(data)
    ensures Predict(Some(classifier), Returned(data)) ==
      Failure(500, Caught(NotIterable(TypeName(data))))
  {
  }

  /** A list or str body holding both names passes the membership tests but
      cannot be indexed by a string: 500. */
  lemma SequenceBodyIsServerError(classifier: Classifier, data: Json)
    requires data.Arr? || data.Str?
    requires Contains(data, "couleur") == Returned(true) && Contains(data, "texture") == Returned(true)
    ensures Predict(Some(classifier), Returned(data)) ==
      Failure(500, Caught(IndexNotInteger(TypeName(data))))
  {
    assert Truthy(data) by {
      if data.Str? {
        assert data.s != "";
      } else {
        assert Str("couleur") in data.items;
      }
    }
  }

  /** An exception from reading the body, or from the classifier's `predict`,
      reaches the catch-all: 500 with that exception. */
  lemma ForeignFailureIsServerError(classifier: Classifier, body: Outcome<Json>, e: Exception)
    requires body == Raised(e) ||
      (RequestFeatures(body).Some? && RequestFeatures(body).value.InDomain()
       && classifier.predict(RequestFeatures(body).value) == Raised(e))
    ensures Predict(Some(classifier), body) == Failure(500, Caught(e))
  {
    if body.Returned? {
      assert Truthy(body.value);
    }
  }

  /** Every in-domain pair sent as two JSON integers is answered with 200,
      the classifier's code, its label and the pair itself. */
  lemma InDomainRequestSucceeds(classifier: Classifier, couleur: int, texture: int)
    requires FeatureVector(couleur, texture).InDomain()
    requires classifier.predict(FeatureVector(couleur, texture)).Returned?
    ensures
      var body := Returned(Obj(map["couleur" := Int(couleur), "texture" := Int(texture)]));
      var r := Predict(Some(classifier), body);
      r.Status() == 200 && r.SuccessFlag()
      && r.predictionCode == classifier.predict(FeatureVector(couleur, texture)).value
      && r.input == FeatureVector(couleur, texture)
      && (r.prediction == "pomme" <==> r.predictionCode == 0)
  {
    var body := Returned(Obj(map["couleur" := Int(couleur), "texture" := Int(texture)]));
    SuccessExactly(classifier, body);
  }

  /** JSON booleans are accepted as the integers 1 and 0. */
  lemma BooleansAreCoerced(classifier: Classifier, couleur: bool, texture: bool)
    requires classifier.predict(FeatureVector(if couleur then 1 else 0, if texture then 1 else 0)).Returned?
    ensures
      var body := Returned(Obj(map["couleur" := Bool(couleur), "texture" := Bool(texture)]));
      Predict(Some(classifier), body).Success?
      && Predict(Some(classifier), body).input
         == FeatureVector(if couleur then 1 else 0, if texture then 1 else 0)
  {
    var body := Returned(Obj(map["couleur" := Bool(couleur), "texture" := Bool(texture)]));
    SuccessExactly(classifier, body);
  }

  /** Fractional values are truncated toward zero before the domain check:
      a pair of finite floats is refused with "invalid values" exactly when
      `couleur` lies outside (-1, 3) or `texture` outside (-1, 2), and is
      otherwise answered on its truncations, which the response echoes
      (2.9 is accepted as 2, -0.5 as 0). */
  lemma FloatsAreTruncated(classifier: Classifier, x: real, y: real)
    ensures
      var body := Returned(Obj(map["couleur" := Num(Finite(x)), "texture" := Num(Finite(y))]));
      var features := FeatureVector(Truncate(x), Truncate(y));
      (Predict(Some(classifier), body) == INVALID_VALUES <==> !(-1.0 < x < 3.0 && -1.0 < y < 2.0))
      && (features.InDomain() && classifier.predict(features).Returned? ==>
            Predict(Some(classifier), body).Success?
            && Predict(Some(classifier), body).input == features)
  {
    var body := Returned(Obj(map["couleur" := Num(Finite(x)), "texture" := Num(Finite(y))]));
    assert RequestFeatures(body) == Some(FeatureVector(Truncate(x), Truncate(y)));
    InvalidValuesExactly(classifier, body);
    SuccessExactly(classifier, body);
  }

  /** In-domain values sent as decimal strings, each with any white space of
      its own around it, are accepted as their value. */
  lemma StringsAreParsed(classifier: Classifier, features: Features,
                         leadCouleur: string, trailCouleur: string,
                         leadTexture: string, trailTexture: string)
    requires forall i :: 0 <= i < |leadCouleur| ==> IsSpace(leadCouleur[i])
    requires forall i :: 0 <= i < |trailCouleur| ==> IsSpace(trailCouleur[i])
    requires forall i :: 0 <= i < |leadTexture| ==> IsSpace(leadTexture[i])
    requires forall i :: 0 <= i < |trailTexture| ==> IsSpace(trailTexture[i])
    requires classifier.predict(features).Returned?
    ensures
      var body := Returned(Obj(map[
        "couleur" := Str(leadCouleur + IntToString(features.couleur) + trailCouleur),
        "texture" := Str(leadTexture + IntToString(features.texture) + trailTexture)]));
      Predict(Some(classifier), body).Success?
      && Predict(Some(classifier), body).input == features
  {
    SpacedDecimal(features.couleur, leadCouleur, trailCouleur);
    SpacedDecimal(features.texture, leadTexture, trailTexture);
    CoercedPairSucceeds(classifier, features,
      Str(leadCouleur + IntToString(features.couleur) + trailCouleur),
      Str(leadTexture + IntToString(features.texture) + trailTexture));
  }

  /** Two values that `int()` turns into an in-domain pair are answered with
      that pair, once the classifier returns a code for it. */
  lemma CoercedPairSucceeds(classifier: Classifier, features: Features, couleur: Json, texture: Json)
    requires ToInt(couleur) == Returned(features.couleur) && ToInt(texture) == Returned(features.texture)
    requires classifier.predict(features).Returned?
    ensures
      var body := Returned(Obj(map["couleur" := couleur, "texture" := texture]));
      Predict(Some(classifier), body).Success?
      && Predict(Some(classifier), body).input == features
  {
    var body := Returned(Obj(map["couleur" := couleur, "texture" := texture]));
    assert RequestFeatures(body) == Some(features);
    AnswerOnFeatures(classifier, body);
  }

  lemma SpacedDecimal(digit: int, lead: string, trail: string)
    requires 0 <= digit < 10
    requires forall i :: 0 <= i < |lead| ==> IsSpace(lead[i])
    requires forall i :: 0 <= i < |trail| ==> IsSpace(trail[i])
    ensures ToInt(Str(lead + IntToString(digit) + trail)) == Returned(digit)
  {
    assert |DecimalString(digit)| == 1;
    ParseIntToString(digit);
    ParseIntIgnoresSpace(IntToString(digit), lead, trail);
    ToIntOfStr(lead + IntToString(digit) + trail);
  }

  /** An ASCII `couleur` string without a digit ("", "-", "abc") is refused by
      `int()`, and the answer is 500 with the invalid-literal error, whatever
      `texture` holds. */
  lemma NonNumericStringIsServerError(classifier: Classifier, fields: map<string, Json>, text: string)
    requires "couleur" in fields && "texture" in fields
    requires fields["couleur"] == Str(text)
    requires IsAscii(text) && forall i :: 0 <= i < |text| ==> !IsDigit(text[i])
    ensures Predict(Some(classifier), Returned(Obj(fields))) == Failure(500, Caught(InvalidLiteral(text)))
  {
    ParseIntRefusesNoDigits(text);
    ToIntOfStr(text);
    CoercionFailureIsServerError(classifier, fields);
  }

  /** Out-of-domain integers are refused with 400 whatever the classifier. */
  lemma OutOfDomainIsClientError(classifier: Classifier)
    ensures Predict(Some(classifier), Returned(Obj(map["couleur" := Int(3), "texture" := Int(0)])))
            == INVALID_VALUES
    ensures Predict(Some(classifier), Returned(Obj(map["couleur" := Int(0), "texture" := Int(2)])))
            == INVALID_VALUES
  {
    InvalidValuesExactly(classifier, Returned(Obj(map["couleur" := Int(3), "texture" := Int(0)])));
    InvalidValuesExactly(classifier, Returned(Obj(map["couleur" := Int(0), "texture" := Int(2)])));
  }

  /** When `predict_proba` is missing, raises or yields an empty row, the
      request still succeeds and reports the integer 100. */
  lemma ConfidenceDefaultsToCertain(classifier: Classifier, body: Outcome<Json>)
    requires RequestFeatures(body).Some? && RequestFeatures(body).value.InDomain()
    requires classifier.predict(RequestFeatures(body).value).Returned?
    requires classifier.predictProba.Some? ==>
      classifier.predictProba.value(RequestFeatures(body).value).Raised?
      || classifier.predictProba.value(RequestFeatures(body).value).value == []
    ensures Predict(Some(classifier), body).Success?
    ensures Predict(Some(classifier), body).probability == Certain
    ensures Predict(Some(classifier), body).probability.Percent() == 100.0
  {
    SuccessExactly(classifier, body);
  }

  /** When the row of probabilities lies in [0, 1], the reported percentage
      lies in [0, 100]. */
  lemma ConfidenceInRange(classifier: Classifier, features: Features)
    requires classifier.predictProba.Some? && classifier.predictProba.value(features).Returned? ==>
      forall p :: p in classifier.predictProba.value(features).value ==> 0.0 <= p <= 1.0
    ensures 0.0 <= Confidence(classifier, features).Percent() <= 100.0
  {
  }

  /** The domains `/api/info` publishes are exactly the ones the handler checks. */
  lemma InfoDescribesValidation(features: FeatureVector)
    ensures "couleur" in ApiInfo().features && "texture" in ApiInfo().features
    ensures features.InDomain() <==>
      features.couleur in ApiInfo().features["couleur"].values
      && features.texture in ApiInfo().features["texture"].values
  {
  }

  /** The output domain `/api/info` publishes names each code as the handler does. */
  lemma InfoDescribesLabels(code: int)
    ensures code in ApiInfo().output.values <==> code == 0 || code == 1
    ensures code in ApiInfo().output.values ==> ApiInfo().output.values[code] == Label(code)
  {
  }
}
