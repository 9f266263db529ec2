/** Values shared by the browser client and the API server: the string-valued
    objects that travel as JSON, and the requirement record of the database. */
module Records {

  datatype Option<T> = None | Some(value: T)

  datatype Result<T, E> = Ok(value: T) | Err(error: E)

  /** A JSON object or Python dict whose values are strings. */
  type Fields = map<string, string>

  /** Reading a key that may be absent: Python's `d.get(k, "")`. In
      JavaScript an absent key reads as `undefined`; where the page only
      tests it for truthiness, `undefined` and "" behave alike, so both are
      represented by "". */
  function Get(d: Fields, k: string): string
  {
    if k in d then d[k] else ""
  }

  /** No element occurs twice. */
  predicate Distinct(s: seq<string>)
  {
    forall i, j :: 0 <= i < j < |s| ==> s[i] != s[j]
  }

  /** The six fields a client submits, in the order of the request schema. */
  const FORM_FIELDS: seq<string> :=
    ["attribute", "description", "domain", "source_system", "source_entity", "responsible_analyst"]

  /** The body of `POST /requirements` once validated: six strings, all required. */
  datatype RequirementCreate = RequirementCreate(
    attribute: string,
    description: string,
    domain: string,
    sourceSystem: string,
    sourceEntity: string,
    responsibleAnalyst: string)

  /** A stored row: the submitted fields plus the server-assigned id and
      creation time (a timestamp, modelled as an integer). */
  datatype Requirement = Requirement(id: int, fields: RequirementCreate, createdAt: int)

  /** `req.dict(exclude_unset=True)`: every field is required, so every field is set. */
  function ToDict(c: RequirementCreate): (d: Fields)
    ensures d.Keys == set k | k in FORM_FIELDS
    ensures forall k :: k in d ==> d[k] == Field(c, k)
  {
    map["attribute" := c.attribute, "description" := c.description, "domain" := c.domain,
        "source_system" := c.sourceSystem, "source_entity" := c.sourceEntity,
        "responsible_analyst" := c.responsibleAnalyst]
  }

  /** The value of the field named `k`, or "" for a name that is not a field. */
  function Field(c: RequirementCreate, k: string): string
  {
    match k
    case "attribute" => c.attribute
    case "description" => c.description
    case "domain" => c.domain
    case "source_system" => c.sourceSystem
    case "source_entity" => c.sourceEntity
    case "responsible_analyst" => c.responsibleAnalyst
    case _ => ""
  }

  /** Validation of a JSON body against the request schema: every one of the
      six fields must be present; other keys are ignored. */
  function FromDict(d: Fields): (r: Option<RequirementCreate>)
    ensures r.Some? <==> forall k :: k in FORM_FIELDS ==> k in d
    ensures r.Some? ==> forall k :: k in FORM_FIELDS ==> Field(r.value, k) == d[k]
  {
    if forall k :: k in FORM_FIELDS ==> k in d then
      Some(RequirementCreate(d["attribute"], d["description"], d["domain"],
                             d["source_system"], d["source_entity"], d["responsible_analyst"]))
    else None
  }

  /** Serialising a request and validating it again gives back the same request. */
  lemma DictRoundTrip(c: RequirementCreate)
    ensures FromDict(ToDict(c)) == Some(c)
  {
  }
}
