/**
  Normalisation of the submitted fields before rendering (app.py lines
  78-85): copy the dictionary, run `format_currency` over the six amount
  fields, then replace every `None` by `""`.
*/
module Fields {
  import opened Wrappers
  import opened Currency

  /** A Python field value: a `str`, or `None`. */
  type Value = Option<string>

  /** The exception the indexing `fields[key]` raises. */
  datatype Error = KeyError(key: string)

  /** The amount fields, in the order the loop visits them. */
  const CurrencyKeys: seq<string> := [
    "original_amount", "change_orders", "adjusted_amount",
    "total_payments", "amount_of_this_requisition", "final_application_amount"
  ]

  /** `format_currency` on any value: `float(None)` raises `TypeError`, so `None` comes back as it is. */
  function FormatValue(v: Value, renderFloat: string -> string): (r: Value)
    ensures r.None? <==> v.None?
    ensures v.Some? && !FloatSyntax(v.value) ==> r == v
  {
    match v
    case None => None
    case Some(s) => Some(FormatCurrency(s, renderFloat))
  }

  /** The second loop's replacement of `None` by the empty string. */
  function NoneToEmpty(v: Value): (r: Value)
    ensures r.Some?
    ensures v.None? ==> r == Some("")
    ensures v.Some? ==> r == v
  {
    if v.None? then Some("") else v
  }

  /** Every amount key is present, so the first loop does not raise. */
  predicate HasCurrencyKeys(fields: map<string, Value>) {
    forall i :: 0 <= i < |CurrencyKeys| ==> CurrencyKeys[i] in fields
  }

  /** `CurrencyKeys[i]` is the first amount key that `fields` lacks. */
  predicate FirstMissing(fields: map<string, Value>, i: int) {
    0 <= i < |CurrencyKeys| && CurrencyKeys[i] !in fields
    && forall j :: 0 <= j < i ==> CurrencyKeys[j] in fields
  }

  /** The map the first loop leaves behind: the six amount fields run through `format_currency`. */
  function Formatted(fields: map<string, Value>, renderFloat: string -> string): (r: map<string, Value>)
    requires HasCurrencyKeys(fields)
    ensures r.Keys == fields.Keys
  {
    map k | k in fields :: if k in CurrencyKeys then FormatValue(fields[k], renderFloat) else fields[k]
  }

  /** The map the second loop leaves behind: every `None` replaced by `""`. */
  function NoneReplaced(m: map<string, Value>): (r: map<string, Value>)
    ensures r.Keys == m.Keys
    ensures forall k :: k in r ==> r[k].Some?
  {
    map k | k in m :: NoneToEmpty(m[k])
  }

  /** The map the two loops leave behind. */
  function Normalised(fields: map<string, Value>, renderFloat: string -> string): (r: map<string, Value>)
    requires HasCurrencyKeys(fields)
    ensures r.Keys == fields.Keys
    ensures forall k :: k in r ==> r[k].Some?
  {
    NoneReplaced(Formatted(fields, renderFloat))
  }

  /**
    What normalisation changes and what it leaves alone: the six amount
    fields are reformatted, and every other value is kept except that `None`
    becomes `""`.
  */
  lemma NormalisedFrame(fields: map<string, Value>, renderFloat: string -> string)
    requires HasCurrencyKeys(fields)
    ensures forall k :: k in fields && k !in CurrencyKeys ==>
      Normalised(fields, renderFloat)[k] == (if fields[k].None? then Some("") else fields[k])
    ensures forall k :: k in CurrencyKeys ==>
      Normalised(fields, renderFloat)[k] == NoneToEmpty(FormatValue(fields[k], renderFloat))
  {
  }

  /** An amount field holding digits ends up as the grouped dollar amount. */
  lemma NormalisedAmount(fields: map<string, Value>, renderFloat: string -> string, k: string)
    requires HasCurrencyKeys(fields) && k in CurrencyKeys
    requires fields[k].Some? && ExactInteger(fields[k].value)
    ensures Normalised(fields, renderFloat)[k] == Some("$" + GroupThousands(DigitsValue(fields[k].value)) + ".00")
  {
    CurrencyRoundTrip(fields[k].value, renderFloat);
  }

  /** An amount field that does not parse (blank, `$100`, `1,000`, `n/a`) is kept as it is. */
  lemma NormalisedUnparsed(fields: map<string, Value>, renderFloat: string -> string, k: string)
    requires HasCurrencyKeys(fields) && k in CurrencyKeys
    requires fields[k].Some? && !FloatSyntax(fields[k].value)
    ensures Normalised(fields, renderFloat)[k] == fields[k]
  {
  }

  /**
    The two loops of lines 78-85. The first raises `KeyError` at the first
    amount key missing from `fields`; otherwise the result is `Normalised`.
  */
  method NormaliseFields(fields: map<string, Value>, renderFloat: string -> string)
    returns (r: Result<map<string, Value>, Error>)
    ensures r.Success? <==> HasCurrencyKeys(fields)
    ensures r.Success? ==> r.value == Normalised(fields, renderFloat)
    ensures r.Failure? ==> exists i :: FirstMissing(fields, i) && r.error == KeyError(CurrencyKeys[i])
  {
    var formatted := FormatAmounts(fields, renderFloat);
    if formatted.Failure? {
      return Failure(formatted.error);
    }
    var normalised := ReplaceNones(formatted.value);
    r := Success(normalised);
  }

  /**
    Lines 78-80: copy the map and reformat the six amount keys in order;
    indexing a missing key raises `KeyError`.
  */
  method FormatAmounts(fields: map<string, Value>, renderFloat: string -> string)
    returns (r: Result<map<string, Value>, Error>)
    ensures r.Success? <==> HasCurrencyKeys(fields)
    ensures r.Success? ==> r.value == Formatted(fields, renderFloat)
    ensures r.Failure? ==> exists i :: FirstMissing(fields, i) && r.error == KeyError(CurrencyKeys[i])
  {
    var formatted := fields;
    for i := 0 to |CurrencyKeys|
      invariant formatted.Keys == fields.Keys
      invariant forall j :: 0 <= j < i ==> CurrencyKeys[j] in fields
      invariant forall k :: k in formatted ==>
        formatted[k] == if k in CurrencyKeys[..i] then FormatValue(fields[k], renderFloat) else fields[k]
    {
      var key := CurrencyKeys[i];
      if key !in fields {
        assert FirstMissing(fields, i);
        return Failure(KeyError(key));
      }
      formatted := formatted[key := FormatValue(fields[key], renderFloat)];
      assert CurrencyKeys[..i + 1] == CurrencyKeys[..i] + [key];
    }
    assert CurrencyKeys[..|CurrencyKeys|] == CurrencyKeys;
    r := Success(formatted);
  }

  /** Lines 83-85: every key whose value is `None` is set to `""`; other values stay. */
  method ReplaceNones(m: map<string, Value>) returns (r: map<string, Value>)
    ensures r == NoneReplaced(m)
  {
    r := m;
    var remaining := m.Keys;
    while remaining != {}
      invariant remaining <= r.Keys && r.Keys == m.Keys
      invariant forall k :: k in r ==> r[k] == if k in remaining then m[k] else NoneToEmpty(m[k])
      decreases remaining
    {
      var key :| key in remaining;
      if r[key].None? {
        r := r[key := Some("")];
      }
      remaining := remaining - {key};
    }
  }
}
