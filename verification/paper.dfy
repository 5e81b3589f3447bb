/** `PaperDetail`, reduced to the attributes the crawler and the analysis
    read or write. Every attribute is optional, as in the dataclass. */
module PaperType {
  import opened Wrappers

  /** A paper id; `None` is a possible (if unusual) dictionary key. */
  type PaperId = Option<string>

  /** `abstractText` holds the `abstract` attribute (a Dafny keyword).
      `references` holds the ids of the cited papers: the source stores
      `PaperDetail(paperId=...)` records there and reads only their ids. */
  datatype Paper = Paper(
    paperId: PaperId,
    title: Option<string>,
    year: Option<int>,
    abstractText: Option<string>,
    referenceCount: Option<int>,
    citationCount: Option<int>,
    fieldsOfStudy: Option<seq<string>>,
    references: Option<seq<PaperId>>)

  /** One `setattr(item, name, value)` of `PaperDB.update`. */
  datatype Attr =
    | SetPaperId(PaperId)
    | SetTitle(Option<string>)
    | SetYear(Option<int>)
    | SetAbstract(Option<string>)
    | SetReferenceCount(Option<int>)
    | SetCitationCount(Option<int>)
    | SetFieldsOfStudy(Option<seq<string>>)
    | SetReferences(newReferences: Option<seq<PaperId>>)

  function ApplyAttr(p: Paper, a: Attr): Paper
  {
    match a
    case SetPaperId(v) => p.(paperId := v)
    case SetTitle(v) => p.(title := v)
    case SetYear(v) => p.(year := v)
    case SetAbstract(v) => p.(abstractText := v)
    case SetReferenceCount(v) => p.(referenceCount := v)
    case SetCitationCount(v) => p.(citationCount := v)
    case SetFieldsOfStudy(v) => p.(fieldsOfStudy := v)
    case SetReferences(v) => p.(references := v)
  }

  /** The attributes an `Attr` can name. */
  datatype Field =
    | FPaperId | FTitle | FYear | FAbstract | FReferenceCount
    | FCitationCount | FFieldsOfStudy | FReferences

  /** The attribute an entry of `attrs` sets. */
  function Names(a: Attr): Field
  {
    match a
    case SetPaperId(_) => FPaperId
    case SetTitle(_) => FTitle
    case SetYear(_) => FYear
    case SetAbstract(_) => FAbstract
    case SetReferenceCount(_) => FReferenceCount
    case SetCitationCount(_) => FCitationCount
    case SetFieldsOfStudy(_) => FFieldsOfStudy
    case SetReferences(_) => FReferences
  }

  /** `p` and `q` hold the same value for attribute `f`. */
  predicate Agree(p: Paper, q: Paper, f: Field)
  {
    match f
    case FPaperId => p.paperId == q.paperId
    case FTitle => p.title == q.title
    case FYear => p.year == q.year
    case FAbstract => p.abstractText == q.abstractText
    case FReferenceCount => p.referenceCount == q.referenceCount
    case FCitationCount => p.citationCount == q.citationCount
    case FFieldsOfStudy => p.fieldsOfStudy == q.fieldsOfStudy
    case FReferences => p.references == q.references
  }

  /** The `for k, v in attrs.items(): setattr(item, k, v)` loop: the last
      entry naming an attribute decides it (`ApplyAttrsSets`); attributes no
      entry names keep their values (`ApplyAttrsKeeps`). */
  function ApplyAttrs(p: Paper, attrs: seq<Attr>): (r: Paper)
    ensures |attrs| > 0 && attrs[|attrs| - 1].SetReferences? ==>
      r.references == attrs[|attrs| - 1].newReferences
    decreases |attrs|
  {
    if |attrs| == 0 then p
    else ApplyAttrs(ApplyAttr(p, attrs[0]), attrs[1..])
  }

  /** One `setattr` changes only the attribute it names. */
  lemma ApplyAttrKeeps(p: Paper, a: Attr, f: Field)
    ensures Names(a) != f ==> Agree(ApplyAttr(p, a), p, f)
  {
  }

  /** An attribute that no entry of `attrs` names keeps its value. */
  lemma {:induction false} ApplyAttrsKeeps(p: Paper, attrs: seq<Attr>, f: Field)
    ensures (forall i :: 0 <= i < |attrs| ==> Names(attrs[i]) != f) ==>
      Agree(ApplyAttrs(p, attrs), p, f)
    decreases |attrs|
  {
    if |attrs| > 0 && forall i :: 0 <= i < |attrs| ==> Names(attrs[i]) != f {
      var q := ApplyAttr(p, attrs[0]);
      assert Names(attrs[0]) != f;
      ApplyAttrKeeps(p, attrs[0], f);
      assert forall i :: 0 <= i < |attrs| - 1 ==> attrs[1..][i] == attrs[i + 1];
      ApplyAttrsKeeps(q, attrs[1..], f);
      match f { case _ => }
    }
  }

  /** One `setattr` stores its value whatever the record held before. */
  lemma ApplyAttrSets(p: Paper, q: Paper, a: Attr)
    ensures Agree(ApplyAttr(p, a), ApplyAttr(q, a), Names(a))
  {
  }

  lemma AgreeTrans(p: Paper, q: Paper, r: Paper, f: Field)
    requires Agree(p, q, f) && Agree(q, r, f)
    ensures Agree(p, r, f)
  {
  }

  /** Every attribute is assigned by the loop: it ends up holding the
      value stored by the last entry that names it. */
  lemma {:induction false} ApplyAttrsSets(p: Paper, attrs: seq<Attr>, j: nat)
    requires j < |attrs|
    requires forall i :: j < i < |attrs| ==> Names(attrs[i]) != Names(attrs[j])
    ensures Agree(ApplyAttrs(p, attrs), ApplyAttr(p, attrs[j]), Names(attrs[j]))
    decreases |attrs|
  {
    var f := Names(attrs[j]);
    var q := ApplyAttr(p, attrs[0]);
    assert forall i :: 0 <= i < |attrs| - 1 ==> attrs[1..][i] == attrs[i + 1];
    if j == 0 {
      ApplyAttrsKeeps(q, attrs[1..], f);
    } else {
      ApplyAttrsSets(q, attrs[1..], j - 1);
      ApplyAttrSets(q, p, attrs[j]);
      AgreeTrans(ApplyAttrs(p, attrs), ApplyAttr(q, attrs[j]), ApplyAttr(p, attrs[j]), f);
    }
  }
}
