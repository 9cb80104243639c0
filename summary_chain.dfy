/** `get_company_summary` of chains/summary_chain.py: the name check, the
    extraction of a JSON object from the model's reply, the normalisation of
    the decoded keys, and the fallback summary when the model or the decoding
    fails. The language model and `json.loads` are parameters. */
module SummaryChain {
  import opened Wrappers
  import opened Text

  /** The three-field summary, the shape of `CompanySummarySchema`. */
  datatype CompanySummary = CompanySummary(companyName: string, sector: string, description: string)
  {
    function ToJson(): (j: Json)
      ensures j.JObj? && j.fields.Keys == {"company_name", "sector", "description"}
      ensures j.fields["company_name"] == JStr(companyName)
    {
      JObj(map[
        "company_name" := JStr(companyName),
        "sector" := JStr(sector),
        "description" := JStr(description)])
    }
  }

  /** What the language model did for one company name. `SetupFailed` is an
      exception while building the client or the chain, which happens before
      the `try` and so escapes; `Failed` is an exception while the chain runs,
      which the `try` catches. */
  datatype LlmReply =
    | Answered(text: string)
    | Failed(message: string)
    | SetupFailed(message: string)

  /** What `json.loads` produced: a top-level object, whose values are strings
      or `None`, or an exception (invalid JSON, or a value without `.get`). */
  datatype Decoded =
    | Object(fields: map<string, Option<string>>)
    | Malformed(message: string)

  const EmptyNameMessage := "company_name must be a non-empty string"
  const FallbackSector := "Unknown"
  const FallbackPrefix := "Automated summary not available due to an error: "

  /** The text handed to `json.loads`, from the stripped reply `t`: `t`
      itself if it starts with "{", else the span from its first "{" to its
      last "}" when that span exists, else `t` unchanged. */
  function JsonSpan(t: string): (r: string)
    ensures IsInfix(r, t)
    ensures StartsWith(t, "{") ==> r == t
    ensures r != t ==> 2 <= |r| && r[0] == '{' && r[|r| - 1] == '}'
  {
    if StartsWith(t, "{") then
      assert OccursAt(t, t, 0);
      t
    else
      var first, last := Find(t, '{'), RFind(t, '}');
      if first != -1 && last != -1 && last > first then
        assert OccursAt(t[first..last + 1], t, first);
        t[first..last + 1]
      else
        assert OccursAt(t, t, 0);
        t
  }

  /** Lines 96-108: strip the reply, then take its JSON span. */
  function ExtractJsonText(response: string): (r: string)
    ensures IsInfix(r, Strip(response))
  {
    JsonSpan(Strip(response))
  }

  /** The reply is cut down exactly when it does not start with "{" and holds
      a "{" followed later by a "}". */
  lemma JsonSpanCutsIff(t: string)
    ensures JsonSpan(t) != t
      <==> !StartsWith(t, "{") && '{' in t && '}' in t && RFind(t, '}') > Find(t, '{')
  {
    if !StartsWith(t, "{") && '{' in t && '}' in t && RFind(t, '}') > Find(t, '{') {
      assert t != [] && t[0] != '{';
    }
  }

  /** A cut-down reply is the outermost braced span: no "{" comes before it
      and no "}" after it. */
  lemma JsonSpanIsOutermost(t: string)
    ensures var r := JsonSpan(t);
      r != t ==> exists i :: OccursAt(r, t, i) && '{' !in t[..i] && '}' !in t[i + |r|..]
  {
    var r := JsonSpan(t);
    if r != t {
      var first := Find(t, '{');
      assert OccursAt(r, t, first);
      assert '{' !in t[..first];
      assert '}' !in t[first + |r|..];
    }
  }

  /** A reply that starts with an object is passed on whole, trailing text included. */
  lemma JsonSpanOfBraceLed(obj: string, tail: string)
    requires obj != [] && obj[0] == '{'
    ensures JsonSpan(obj + tail) == obj + tail
  {
    assert (obj + tail)[..1] == "{";
  }

  /** An object after a non-empty brace-free lead, and before brace-free
      text, is cut out exactly. */
  lemma JsonSpanOfWrapped(lead: string, obj: string, tail: string)
    requires lead != [] && '{' !in lead && '}' !in tail
    requires 2 <= |obj| && obj[0] == '{' && obj[|obj| - 1] == '}'
    ensures JsonSpan(lead + obj + tail) == obj
  {
    var t := lead + obj + tail;
    assert lead[0] != '{';
    assert !StartsWith(t, "{") by { assert t[0] == lead[0]; }
    FindAfterPrefix(lead, obj + tail, '{');
    assert t == lead + (obj + tail);
    RFindBeforeSuffix(lead + obj, tail, '}');
    assert t[|lead|..|lead| + |obj|] == obj;
  }

  /** A JSON object `obj` wrapped in text without braces (a code fence, a
      sentence) is recovered exactly when the text before it is not blank or
      the text after it is blank: with nothing but whitespace before it, the
      reply starts with "{" and the trailing text is kept. */
  lemma {:induction false} ExtractFromWrapped(p: string, obj: string, q: string)
    requires '{' !in p && '}' !in p && '{' !in q && '}' !in q
    requires 2 <= |obj| && obj[0] == '{' && obj[|obj| - 1] == '}'
    ensures ExtractJsonText(p + obj + q) == obj <==> !IsBlank(p) || IsBlank(q)
  {
    var lead := if IsBlank(p) then [] else p[LeadingSpaces(p)..];
    var tail := if IsBlank(q) then [] else q[..|q| - TrailingSpaces(q)];
    StripAround(p, obj, q);
    assert Strip(p + obj + q) == lead + obj + tail;
    assert '}' !in tail;
    if IsBlank(p) {
      assert lead + obj + tail == obj + tail;
      JsonSpanOfBraceLed(obj, tail);
      if !IsBlank(q) {
        TrailingSpacesSpec(q);
        assert |tail| > 0;
      }
    } else {
      assert '{' !in lead;
      LeadingSpacesSpec(p);
      JsonSpanOfWrapped(lead, obj, tail);
    }
  }

  /** `parsed.get(key)`: `None` for an absent key. */
  function Field(fields: map<string, Option<string>>, key: string): (v: Option<string>)
    ensures key !in fields ==> v == None
    ensures key in fields ==> v == fields[key]
  {
    if key in fields then fields[key] else None
  }

  /** Python truthiness of an optional string: `None` and "" are false. */
  predicate Truthy(v: Option<string>) {
    v.Some? && v.value != ""
  }

  /** `parsed.get(first) or parsed.get(second) or default`. */
  function FirstTruthy(fields: map<string, Option<string>>, first: string, second: string, default: string): (r: string)
    ensures Truthy(Field(fields, first)) ==> r == Field(fields, first).value
    ensures !Truthy(Field(fields, first)) && Truthy(Field(fields, second)) ==> r == Field(fields, second).value
    ensures !Truthy(Field(fields, first)) && !Truthy(Field(fields, second)) ==> r == default
  {
    var a, b := Field(fields, first), Field(fields, second);
    if Truthy(a) then a.value else if Truthy(b) then b.value else default
  }

  /** The summary built from a decoded object: each field from its key or its
      synonym, or a default, then stripped. */
  function Normalize(fields: map<string, Option<string>>, companyName: string): (r: CompanySummary)
    ensures IsStripped(r.companyName) && IsStripped(r.sector) && IsStripped(r.description)
  {
    CompanySummary(
      Strip(FirstTruthy(fields, "company_name", "company", companyName)),
      Strip(FirstTruthy(fields, "sector", "industry", "N/A")),
      Strip(FirstTruthy(fields, "description", "summary", "")))
  }

  /** The summary returned when the model or the decoding raised. */
  function Fallback(companyName: string, message: string): (r: CompanySummary)
    ensures r.companyName == companyName && r.sector == FallbackSector
    ensures StartsWith(r.description, FallbackPrefix) && r.description[|FallbackPrefix|..] == message
  {
    CompanySummary(companyName, FallbackSector, FallbackPrefix + message)
  }

  /** `get_company_summary(company_name)` with the model `llm` and the decoder
      `parse`. Only a blank name and a failure to set up the model escape. */
  function GetCompanySummary(companyName: string, llm: string -> LlmReply, parse: string -> Decoded)
    : (r: Result<CompanySummary>)
    ensures r.Err? <==> IsBlank(companyName) || llm(companyName).SetupFailed?
    ensures IsBlank(companyName) ==> r == Err(ValueError(EmptyNameMessage))
    ensures !IsBlank(companyName) && llm(companyName).SetupFailed? ==>
      r == Err(ProviderError(llm(companyName).message))
    ensures !IsBlank(companyName) && llm(companyName).Failed? ==>
      r == Ok(Fallback(companyName, llm(companyName).message))
    ensures !IsBlank(companyName) && llm(companyName).Answered? ==>
      match parse(ExtractJsonText(llm(companyName).text))
      case Object(fields) => r == Ok(Normalize(fields, companyName))
      case Malformed(message) => r == Ok(Fallback(companyName, message))
  {
    if IsBlank(companyName) then Err(ValueError(EmptyNameMessage))
    else
      match llm(companyName)
      case SetupFailed(message) => Err(ProviderError(message))
      case Failed(message) => Ok(Fallback(companyName, message))
      case Answered(text) =>
        match parse(ExtractJsonText(text))
        case Malformed(message) => Ok(Fallback(companyName, message))
        case Object(fields) => Ok(Normalize(fields, companyName))
  }

  /** A summary as a decoded object with its three canonical keys. */
  function FieldsOf(s: CompanySummary): (fields: map<string, Option<string>>)
    ensures fields.Keys == {"company_name", "sector", "description"}
  {
    map["company_name" := Some(s.companyName), "sector" := Some(s.sector), "description" := Some(s.description)]
  }

  /** Round trip: when the model answers with a summary's JSON object,
      wrapped in brace-free text that the extraction removes, and the decoder
      reads that object back, the summary comes out unchanged, provided its
      fields are already stripped and its name and sector are not empty. */
  lemma {:induction false} SummaryRoundTrip(
    companyName: string, llm: string -> LlmReply, parse: string -> Decoded,
    p: string, obj: string, q: string, s: CompanySummary)
    requires !IsBlank(companyName)
    requires llm(companyName) == Answered(p + obj + q)
    requires '{' !in p && '}' !in p && '{' !in q && '}' !in q
    requires 2 <= |obj| && obj[0] == '{' && obj[|obj| - 1] == '}'
    requires !IsBlank(p) || IsBlank(q)
    requires parse(obj) == Object(FieldsOf(s))
    requires s.companyName != "" && s.sector != ""
    requires IsStripped(s.companyName) && IsStripped(s.sector) && IsStripped(s.description)
    ensures GetCompanySummary(companyName, llm, parse) == Ok(s)
  {
    ExtractFromWrapped(p, obj, q);
    NormalizeFieldsOf(s, companyName);
  }

  /** Normalising a summary's own object gives the summary back when its
      fields are stripped and its name and sector are not empty. */
  lemma NormalizeFieldsOf(s: CompanySummary, companyName: string)
    requires s.companyName != "" && s.sector != ""
    requires IsStripped(s.companyName) && IsStripped(s.sector) && IsStripped(s.description)
    ensures Normalize(FieldsOf(s), companyName) == s
  {
    var fields := FieldsOf(s);
    assert Strip(FirstTruthy(fields, "company_name", "company", companyName)) == s.companyName by {
      assert Field(fields, "company_name") == Some(s.companyName);
      StrippedIsFixpoint(s.companyName);
    }
    assert Strip(FirstTruthy(fields, "sector", "industry", "N/A")) == s.sector by {
      assert Field(fields, "sector") == Some(s.sector);
      StrippedIsFixpoint(s.sector);
    }
    assert Strip(FirstTruthy(fields, "description", "summary", "")) == s.description by {
      assert Field(fields, "description") == Some(s.description);
      StrippedIsFixpoint(s.description);
    }
  }

  /** A failure of the model run or of the decoding gives the fallback
      summary, which keeps the name as given and reports the error. */
  lemma FailureGivesFallback(companyName: string, llm: string -> LlmReply, parse: string -> Decoded)
    requires !IsBlank(companyName)
    requires llm(companyName).Failed?
             || (llm(companyName).Answered? && parse(ExtractJsonText(llm(companyName).text)).Malformed?)
    ensures var reply := llm(companyName);
      var message := if reply.Failed? then reply.message else parse(ExtractJsonText(reply.text)).message;
      var r := GetCompanySummary(companyName, llm, parse);
      && r == Ok(Fallback(companyName, message))
      && r.value.companyName == companyName && r.value.sector == FallbackSector
      && StartsWith(r.value.description, FallbackPrefix) && r.value.description[|FallbackPrefix|..] == message
  {
  }

  /** Each field is read from its key when that holds a non-empty string, else
      from its synonym when that does, else it takes its default; the value
      is then stripped. */
  lemma NormalizeSynonyms(fields: map<string, Option<string>>, companyName: string)
    ensures var r := Normalize(fields, companyName);
      && (Truthy(Field(fields, "company_name")) ==> r.companyName == Strip(Field(fields, "company_name").value))
      && (!Truthy(Field(fields, "company_name")) && Truthy(Field(fields, "company")) ==>
            r.companyName == Strip(Field(fields, "company").value))
      && (!Truthy(Field(fields, "company_name")) && !Truthy(Field(fields, "company")) ==>
            r.companyName == Strip(companyName))
      && (Truthy(Field(fields, "sector")) ==> r.sector == Strip(Field(fields, "sector").value))
      && (!Truthy(Field(fields, "sector")) && Truthy(Field(fields, "industry")) ==>
            r.sector == Strip(Field(fields, "industry").value))
      && (!Truthy(Field(fields, "sector")) && !Truthy(Field(fields, "industry")) ==> r.sector == "N/A")
      && (Truthy(Field(fields, "description")) ==> r.description == Strip(Field(fields, "description").value))
      && (!Truthy(Field(fields, "description")) && Truthy(Field(fields, "summary")) ==>
            r.description == Strip(Field(fields, "summary").value))
      && (!Truthy(Field(fields, "description")) && !Truthy(Field(fields, "summary")) ==> r.description == "")
  {
    StrippedIsFixpoint("N/A");
    assert Strip("") == "";
  }

  /** A decoded object yields a summary whose three fields are stripped. */
  lemma DecodedSummaryIsStripped(companyName: string, llm: string -> LlmReply, parse: string -> Decoded)
    requires !IsBlank(companyName) && llm(companyName).Answered?
    requires parse(ExtractJsonText(llm(companyName).text)).Object?
    ensures var r := GetCompanySummary(companyName, llm, parse);
      r.Ok? && IsStripped(r.value.companyName) && IsStripped(r.value.sector) && IsStripped(r.value.description)
  {
  }

  /** The summary depends on the six keys it reads and on no other key. */
  lemma NormalizeReadsOnlySixKeys(f1: map<string, Option<string>>, f2: map<string, Option<string>>, companyName: string)
    requires forall k :: k in {"company_name", "company", "sector", "industry", "description", "summary"}
                         ==> Field(f1, k) == Field(f2, k)
    ensures Normalize(f1, companyName) == Normalize(f2, companyName)
  {
    assert Field(f1, "company_name") == Field(f2, "company_name");
    assert Field(f1, "company") == Field(f2, "company");
    assert Field(f1, "sector") == Field(f2, "sector");
    assert Field(f1, "industry") == Field(f2, "industry");
    assert Field(f1, "description") == Field(f2, "description");
    assert Field(f1, "summary") == Field(f2, "summary");
  }

  /** An object with none of the six keys gives the requested name (stripped),
      sector "N/A" and an empty description. */
  lemma EmptyObjectDefaults(fields: map<string, Option<string>>, companyName: string)
    requires forall k :: k in {"company_name", "company", "sector", "industry", "description", "summary"}
                         ==> k !in fields
    ensures Normalize(fields, companyName) == CompanySummary(Strip(companyName), "N/A", "")
  {
    assert "company_name" !in fields && "company" !in fields;
    assert "sector" !in fields && "industry" !in fields;
    assert "description" !in fields && "summary" !in fields;
    StrippedIsFixpoint("N/A");
    assert Strip("") == "";
  }
}
