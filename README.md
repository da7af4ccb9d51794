# Fruit classifier service: the prediction endpoint

The service exposes a pre-trained two-feature classifier over HTTP. The
features are the colour of a fruit (`couleur`: 0 green, 1 red, 2 orange) and its
texture (`texture`: 0 smooth, 1 rough). The classifier answers apple (`pomme`)
or orange. This project models the two handlers of `app.py` that contain logic:

- `POST /predict`, as the pure function `App.Predict(model, body)`.
  - `model` is what loading the pickled classifier left behind: `None`
    when the file was missing.
  - `body` is what `request.get_json()` returned, or the exception it raised.

  The handler is a chain of guards with early returns. First, is a model
  loaded? Then, inside a catch-all `try`: is the body truthy, and does it hold
  `couleur` and `texture`? Do both values go through `int()`? Are they in
  {0,1,2} and {0,1}? Then the classifier is called, its code mapped to a fruit
  name, and a confidence taken from `predict_proba`, falling back to 100.
  `App.Handle` is the body of that `try` in an exception monad (`Outcome`), and
  `App.Predict` adds the model check and the catch-all.
- `GET /api/info`, as the constant `App.ApiInfo()`.

The Python semantics these guards depend on are modelled explicitly:

- `PyValues`: decoded JSON values, truthiness, `in`, `[]` with a string key,
  and `max`.
- `PyInt`: `int()` on each kind of JSON value. Booleans become 1 and 0, and
  floats are truncated toward zero. NaN and the infinities raise. Strings are
  parsed in base 10: ASCII white space (tab through carriage return, and
  space) around the number, an optional sign, single
  underscores between digits, and at most 4300 digits (the default of
  `sys.int_max_str_digits`). `str()` of an integer is modelled too, as the
  partner of that parser.

A body that is a list or a string passes the membership tests when it contains
the two names, and then fails on `data['couleur']` with a TypeError. A truthy
number or boolean fails the membership test itself. In both cases the catch-all
answers 500 (`AppProperties.SequenceBodyIsServerError`,
`AppProperties.ScalarBodyIsServerError`).

The classifier is abstract (`App.Classifier`): a `predict` that returns a code
or raises, and an optional `predict_proba` that returns a row of probabilities
or raises. Both take the subset type `App.Features`, the in-domain pairs, so
the type checker itself proves that the handler never calls the classifier on
an out-of-domain pair.

A value `int()` refuses is not answered with the 400 "Valeurs invalides": the
code converts before it validates, so such a value raises and the catch-all
answers 500 with the exception (`AppProperties.CoercionFailureIsServerError`,
`AppProperties.NonNumericStringIsServerError`). The same holds for a body that
is not valid JSON: this model treats that as `get_json` raising inside the
`try`, so the answer is 500, not 400
(`AppProperties.ForeignFailureIsServerError`).

`AppProperties.RequestFeatures` is a direct description of the requests that
carry features: a dict with both keys, each value accepted by `int()`. The
lemmas compare the handler with it.

## Model

| member | source | states |
|---|---|---|
| `App.Predict` | app.py:310-368 | With no model the answer is the 500 "Modèle non chargé", whatever the body. Every answer has status 200, 400 or 500, and `success` is true exactly on 200. A 400 is one of the two fixed messages. On success the input is in-domain, `prediction_code` is the classifier's output on it, and the label is "pomme" exactly when the code is 0 and "orange" otherwise. |
| `App.Handle` | app.py:319-362 | The body of the outer `try`. An exception from reading the body is raised again. A failure it returns is one of the two fixed 400 messages. A success carries the classifier's code for the echoed input, that code's label and the confidence. |
| `App.ApiInfo` | app.py:370-391 | A constant that describes exactly two categorical features, `couleur` and `texture`, and a categorical output. Its domains are stated by `AppProperties.InfoDescribesValidation` and `AppProperties.InfoDescribesLabels`. |
| `PyValues.Truthy` | app.py:323 | `not data` holds exactly for None, False, 0, 0.0, the empty string, the empty list and the empty dict, as `bool()` defines them. |
| `App.FeatureVector.InDomain` | app.py:333 | The domain check: `couleur` is one of 0, 1, 2 and `texture` one of 0, 1, as list membership tests them. `AppProperties.InfoDescribesValidation` ties it to `/api/info`. |
| `App.Probability.Percent` | app.py:343-348 | The reported percentage is 100 when no estimate could be had. An estimate in [0, 1] gives a percentage in [0, 100], and 100 exactly for a certain estimate. |
| `App.Label` | app.py:351 | The name is "pomme" exactly when the code is 0, and "orange" for every other code. |
| `App.Confidence` | app.py:343-348 | The default, certain 100, is reported exactly when `predict_proba` is missing, raises or yields an empty row. Otherwise the estimate is the largest element of the row: it is in the row and no element exceeds it. |
| `PyValues.Contains` | app.py:323 | `key in data` raises exactly for scalars (None, bool, int, float). For a dict it tests the keys. |
| `PyValues.GetItem` | app.py:329-330 | `data[key]` returns exactly when `data` is a dict holding `key`, and then returns the value stored under it. |
| `PyValues.Max` | app.py:346 | `max` fails exactly on an empty row. Otherwise it returns an element of the row that no element exceeds. |
| `PyInt.ParseInt` | app.py:329-330 | `int(s)` raises only an invalid-literal error carrying `s`, or a too-many-digits error for more than 4300 digits. |
| `PyInt.ParseIntRefusesNoDigits` | app.py:329-330 | An ASCII string without a decimal digit ("", "-", "abc") is refused with an invalid-literal error. |
| `PyInt.ParseIntRefusesStrayCharacter` | app.py:329-330 | In an ASCII string, a character other than white space, a sign, a digit or an underscore, anywhere in the string (the separators 0x1c-0x1f included), makes `int(s)` refuse it. |
| `PyInt.ParseIntRefusesMisplacedUnderscore` | app.py:329-330 | In a run of digits and underscores, a leading, trailing or doubled underscore makes `int(s)` refuse it ("_1", "1_", "1__0"). |
| `PyInt.Truncate` | app.py:329-330 | `int(x)` on a float truncates toward zero: it lies within 1 of `x`, on the side of zero. |
| `PyInt.ToInt` | app.py:329-330 | `int()` is the identity on ints and maps True/False to 1/0. It raises a TypeError exactly for None, lists and dicts. On a float it raises exactly when the float is NaN or infinite, and otherwise returns its truncation toward zero. |
| `PyInt.ParseIntToString` | app.py:329-330 | Round trip: `int(str(i)) == i` for every integer within the digit limit. |
| `PyInt.ParseIntIgnoresSpace` | app.py:329-330 | Surrounding ASCII white space (tab through carriage return, and space) does not change whether `int(s)` succeeds or the value it returns. |
| `AppProperties.ModelAbsentIsServerError` | app.py:313-317 | Without a model every request is answered 500 with `success` false and "Modèle non chargé", before the body is looked at. |
| `AppProperties.SuccessExactly` | app.py:329-362 | Success holds exactly when the body is a dict whose two values coerce to an in-domain pair and the classifier returns a code for it. Only then is the classifier's code reported. `input` is the coerced pair, the label is that of the code, and the probability is the confidence whether or not it could be estimated. |
| `AppProperties.AnswerOnFeatures` | app.py:329-362 | Once the body is a dict whose two values coerce, the answer depends only on the coerced pair. Outside the domains it is "Valeurs invalides". Otherwise it is 500 with the classifier's exception, or the prediction for its code. |
| `AppProperties.NonDictNeverSucceeds` | app.py:323-330 | A body that is not a dict never gets a prediction. |
| `AppProperties.MissingFieldsExactly` | app.py:323-327 | The 400 "missing fields" answer is given exactly when the body is falsy, or `'couleur' in data` is false, or it is true and `'texture' in data` is false. |
| `AppProperties.MissingKeyIsClientError` | app.py:323-327 | For a dict body, the missing-fields 400 is given exactly when either key is absent, the empty dict included. |
| `AppProperties.InvalidValuesExactly` | app.py:332-337 | The 400 "Valeurs invalides" is given exactly when both values coerce and the pair is outside {0,1,2} x {0,1}. |
| `AppProperties.ClientErrorIgnoresClassifier` | app.py:323-341 | A 400 answer is the same for every classifier, so the classifier is not consulted on such a request. |
| `AppProperties.CoercionFailureIsServerError` | app.py:329-368 | If either value fails `int()`, the answer is 500 carrying that exception, never a 400. `couleur` is converted first, so its exception wins. |
| `AppProperties.ScalarBodyIsServerError` | app.py:319-368 | A truthy number or boolean body makes the membership test raise a not-iterable TypeError, which the catch-all answers with 500. |
| `AppProperties.SequenceBodyIsServerError` | app.py:323-368 | A list or str body containing both names fails on string indexing and is answered with 500. |
| `AppProperties.ForeignFailureIsServerError` | app.py:319-368 | An exception from reading the body, or from `predict` on valid features, is answered with 500 carrying that exception. |
| `AppProperties.InDomainRequestSucceeds` | app.py:329-362 | Every in-domain pair sent as two JSON integers is answered with 200. The answer echoes the pair and reports the classifier's code, with "pomme" exactly for code 0. |
| `AppProperties.BooleansAreCoerced` | app.py:329-337 | JSON booleans are accepted as 1 and 0 and echoed as such. |
| `AppProperties.FloatsAreTruncated` | app.py:329-337 | For every pair of finite floats, "Valeurs invalides" is given exactly when `couleur` lies outside (-1, 3) or `texture` outside (-1, 2). When the truncations toward zero are in-domain and the classifier answers, the request succeeds and echoes the truncations. |
| `AppProperties.NonNumericStringIsServerError` | app.py:323-368 | An ASCII `couleur` string without a digit is refused by `int()`: the answer is 500 with the invalid-literal error, never a 400. |
| `AppProperties.StringsAreParsed` | app.py:329-337 | Any in-domain pair sent as decimal strings, each with its own surrounding ASCII white space, is accepted as its value and echoed. |
| `AppProperties.CoercedPairSucceeds` | app.py:329-362 | Any two dict values that `int()` turns into an in-domain pair get a prediction echoing that pair, once the classifier returns a code. |
| `AppProperties.OutOfDomainIsClientError` | app.py:332-337 | `couleur = 3` and `texture = 2` are refused with "Valeurs invalides". |
| `AppProperties.ConfidenceDefaultsToCertain` | app.py:343-348 | When `predict_proba` is missing, raises or yields an empty row, the request still succeeds and reports the integer 100. |
| `AppProperties.ConfidenceInRange` | app.py:344-346 | When the probabilities lie in [0, 1], the reported percentage lies in [0, 100]. |
| `AppProperties.InfoDescribesValidation` | app.py:377-385 | The feature domains published by `/api/info` are exactly those the handler accepts. |
| `AppProperties.InfoDescribesLabels` | app.py:387-390 | The published output domain is {0, 1}, and each code's published name is the handler's label for it. |

## Left out

- The HTML page with its CSS and JavaScript, including the client-side check for empty fields. It is a static string served as is.
- Flask routing, `jsonify`, `render_template_string` and CORS. Requests and responses are plain datatypes: the decoded body goes in, and a status with a JSON envelope comes out.
- JSON decoding itself. The handler receives the decoded value, or the exception `get_json` raised (a wrong media type or malformed JSON). A body of `null` is the decoded value None. Duplicate keys, where the last one wins, are already resolved in the map.
- Loading `model.pkl`. Only its outcome, a classifier or None, is an input. Only a missing file is caught at start-up, so any other loading error stops the process before a request is served; that is outside this model.
- The classifier's internals and numpy's array construction. The classifier is abstract, and any exception from it, the indexing of its result included, is the opaque `Foreign` exception.
- `App.Classifier`: class labels are taken to be integers. The source tests the raw label with `prediction == 0` for the name and reports `int(prediction)` as the code. The two agree only for integer labels: a label of 0.5 would be named "orange" and reported with code 0. The model has one integer code for both uses.
- `App.Confidence`: in the source the reported value is `round(max(p) * 100, 2)` in floating point. `Probability.Percent` gives the exact `max(p) * 100` without binary floating point or the rounding to two decimals, so the [0, 100] bound is proved for the unrounded value.
- `PyInt.ParseInt`: Python also accepts non-ASCII decimal digits and Unicode white space, which this model treats as invalid. `int()` of a subclass with `__int__` or `__index__` cannot occur for decoded JSON.
- `PyInt.ParseInt`: an embedded NUL character is not modelled as CPython handles it. CPython stops scanning at the first `'\0'` and applies the digit limit first to the digits before it. So a string of more than 4300 digits followed by a NUL raises the too-many-digits error, and the model raises an invalid-literal error. Both reach the catch-all and are answered 500; only the exception differs.
- `PyInt.ParseInt`: the order of the checks follows CPython 3.12, where the string is validated before its digits are counted. CPython 3.11 applied the digit limit earlier, so a malformed string of more than 4300 digits raised the too-many-digits error there.
- `PyInt.ParseIntRefusesStrayCharacter`: for a NUL after more than 4300 digits, CPython raises the too-many-digits error and not the invalid-literal error this lemma concludes (see the NUL line above). The lemma is stated for the model's `ParseInt`.
- `PyInt.ParseIntRefusesNoDigits`: stated for ASCII strings only. CPython also reads non-ASCII decimal digits such as "١" or "１", which the model does not (see the `PyInt.ParseInt` line above).
- `PyInt.ParseIntRefusesStrayCharacter`: stated for ASCII strings only. In other strings CPython treats Unicode digits and Unicode white space as digits and spaces.
- `AppProperties.NonNumericStringIsServerError`: stated for ASCII strings only. A `couleur` of "１" is read as 1 by CPython and answered 200, while the model refuses it.
- The text of exception messages (`str(e)`). The model keeps each exception as a structured value carrying what its message depends on.
- Determinism across repeated identical requests is not a separate lemma: `App.Predict` is a function, so equal inputs give equal answers.
- The start-up banner and `app.run`.
