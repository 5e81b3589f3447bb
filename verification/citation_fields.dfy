/** `CitationFields`: the attributes the references endpoint can project. */
module CitationFields {
  import opened Wrappers
  import opened Seqs
  import opened Base
  import opened Text

  /** The enum members, in declaration order. */
  datatype CitationField =
    | Contexts | Intents | IsInfluential | PaperId | ExternalIds | Url
    | Title | Abstract | Venue | Year | ReferenceCount | CitationCount
    | InfluentialCitationCount | IsOpenAccess | FieldsOfStudy
    | S2FieldsOfStudy | Authors

  /** The member's `.value`, the attribute name sent to the service; no
      value contains the comma that `to_params` joins them with. */
  function Value(f: CitationField): (v: string)
    ensures ',' !in v
  {
    match f
    case Contexts => "contexts"
    case Intents => "intents"
    case IsInfluential => "isInfluential"
    case PaperId => "paperId"
    case ExternalIds => "externalIds"
    case Url => "url"
    case Title => "title"
    case Abstract => "abstract"
    case Venue => "venue"
    case Year => "year"
    case ReferenceCount => "referenceCount"
    case CitationCount => "citationCount"
    case InfluentialCitationCount => "influentialCitationCount"
    case IsOpenAccess => "isOpenAccess"
    case FieldsOfStudy => "fieldsOfStudy"
    case S2FieldsOfStudy => "s2FieldsOfStudy"
    case Authors => "authors"
  }

  /** Position of a member in the class body. */
  function Ordinal(f: CitationField): (n: nat)
    ensures n < 17
  {
    match f
    case Contexts => 0
    case Intents => 1
    case IsInfluential => 2
    case PaperId => 3
    case ExternalIds => 4
    case Url => 5
    case Title => 6
    case Abstract => 7
    case Venue => 8
    case Year => 9
    case ReferenceCount => 10
    case CitationCount => 11
    case InfluentialCitationCount => 12
    case IsOpenAccess => 13
    case FieldsOfStudy => 14
    case S2FieldsOfStudy => 15
    case Authors => 16
  }

  /** The member at a position, if any. */
  function FromOrdinal(n: nat): Option<CitationField>
  {
    if n == 0 then Some(Contexts)
    else if n == 1 then Some(Intents)
    else if n == 2 then Some(IsInfluential)
    else if n == 3 then Some(PaperId)
    else if n == 4 then Some(ExternalIds)
    else if n == 5 then Some(Url)
    else if n == 6 then Some(Title)
    else if n == 7 then Some(Abstract)
    else if n == 8 then Some(Venue)
    else if n == 9 then Some(Year)
    else if n == 10 then Some(ReferenceCount)
    else if n == 11 then Some(CitationCount)
    else if n == 12 then Some(InfluentialCitationCount)
    else if n == 13 then Some(IsOpenAccess)
    else if n == 14 then Some(FieldsOfStudy)
    else if n == 15 then Some(S2FieldsOfStudy)
    else if n == 16 then Some(Authors)
    else None
  }

  lemma OrdinalInverse(f: CitationField)
    ensures FromOrdinal(Ordinal(f)) == Some(f)
  {
    match f { case _ => }
  }

  /** `CitationFields(v)`: lookup of a member by its value; `None` where
      the enum would raise because no member has that value. */
  function FromValue(v: string): (r: Option<CitationField>)
    ensures r.Some? ==> Value(r.value) == v
    ensures r.None? ==> forall f :: Value(f) != v
  {
    if v == "contexts" then Some(Contexts)
    else if v == "intents" then Some(Intents)
    else if v == "isInfluential" then Some(IsInfluential)
    else if v == "paperId" then Some(PaperId)
    else if v == "externalIds" then Some(ExternalIds)
    else if v == "url" then Some(Url)
    else if v == "title" then Some(Title)
    else if v == "abstract" then Some(Abstract)
    else if v == "venue" then Some(Venue)
    else if v == "year" then Some(Year)
    else if v == "referenceCount" then Some(ReferenceCount)
    else if v == "citationCount" then Some(CitationCount)
    else if v == "influentialCitationCount" then Some(InfluentialCitationCount)
    else if v == "isOpenAccess" then Some(IsOpenAccess)
    else if v == "fieldsOfStudy" then Some(FieldsOfStudy)
    else if v == "s2FieldsOfStudy" then Some(S2FieldsOfStudy)
    else if v == "authors" then Some(Authors)
    else None
  }

  /** `BaseFields.values()` for this class: every member, in declaration
      order, each exactly once. */
  function Values(): (r: seq<CitationField>)
    ensures |r| == 17
    ensures forall i :: 0 <= i < |r| ==> Ordinal(r[i]) == i
    ensures Distinct(r)
  {
    [Contexts, Intents, IsInfluential, PaperId, ExternalIds, Url, Title,
     Abstract, Venue, Year, ReferenceCount, CitationCount,
     InfluentialCitationCount, IsOpenAccess, FieldsOfStudy,
     S2FieldsOfStudy, Authors]
  }

  /** Each member sits at its own position in `Values()`. */
  lemma ValuesAt(f: CitationField)
    ensures Values()[Ordinal(f)] == f
  {
    var vs := Values();
    OrdinalInverse(f);
    OrdinalInverse(vs[Ordinal(f)]);
  }

  lemma ValuesComplete(f: CitationField)
    ensures f in Values()
    ensures Count(Values(), f) == 1
  {
    ValuesAt(f);
    DistinctCountOne(Values(), Ordinal(f));
  }

  lemma {:induction false} DistinctCountOne<T>(s: seq<T>, k: nat)
    requires Distinct(s) && k < |s|
    ensures Count(s, s[k]) == 1
  {
    if k == 0 {
      assert s[0] !in s[1..];
      CountPositive(s[1..], s[0]);
    } else {
      assert s[1..][k - 1] == s[k];
      DistinctCountOne(s[1..], k - 1);
    }
  }

  /** Looking a value up gives its member back, so values are unique. */
  lemma FromValueOfValue(f: CitationField)
    ensures FromValue(Value(f)) == Some(f)
  {
    match f { case _ => }
  }

  /** The seven attributes the crawler projects and filters on. */
  const CrawlFields: seq<CitationField> :=
    [PaperId, Title, Year, Abstract, ReferenceCount, CitationCount, FieldsOfStudy]

  /** `get_paper_references(paper_id, fields=...)` with its defaults
      `offset = 0`, `limit = 100`. */
  function ReferencesRequest(fields: seq<CitationField>): Request<CitationField>
  {
    Request(0, 100, fields)
  }

  /** The attribute names the crawler sends, in order. */
  const CrawlValues: seq<string> :=
    ["paperId", "title", "year", "abstract", "referenceCount", "citationCount", "fieldsOfStudy"]

  /** The crawler's request asks for page 0..100 and exactly its seven
      attributes: the joined `fields` parameter splits back into their
      names, in order. */
  lemma CrawlValuesAre()
    ensures FieldValues(CrawlFields, Value) == CrawlValues
  {
    var vs := FieldValues(CrawlFields, Value);
    assert vs[0] == "paperId" && vs[1] == "title" && vs[2] == "year";
    assert vs[3] == "abstract" && vs[4] == "referenceCount";
    assert vs[5] == "citationCount" && vs[6] == "fieldsOfStudy";
  }

  lemma CrawlParams()
    ensures ToParams(ReferencesRequest(CrawlFields), Value).offset == 0
    ensures ToParams(ReferencesRequest(CrawlFields), Value).limit == 100
    ensures Split(ToParams(ReferencesRequest(CrawlFields), Value).fields, ',') == CrawlValues
  {
    var req := ReferencesRequest(CrawlFields);
    CrawlValuesAre();
    ParamsSplit(req, Value);
  }
}
