/** The Inquiry model (main/models/inquiry.js): the schema's field
    constraints and the pre-save hook that gives each new document the next
    sequential display id "INQ - NNNNN". Saves are sequential; the
    collection is held by a class whose `docs` the saves extend. */
module InquiryId {
  import opened Wrappers
  import opened JsText
  import opened Records

  const Prefix := "INQ - "
  const Separator := " - "
  const FirstId := "INQ - 00001"
  const DefaultStatus := "Pending"

  /** The display id of number n: the prefix and n in decimal, padded with
      zeros to at least five digits. */
  function FormatId(n: nat): (r: string)
    ensures |r| == |Prefix| + (if |NatToString(n)| >= 5 then |NatToString(n)| else 5)
    ensures r[..|Prefix|] == Prefix
  {
    Prefix + PadStartZeros(NatToString(n), 5)
  }

  /** Every character after the prefix of a display id is a decimal digit,
      and there are at least five of them. */
  lemma FormatIdAllDigits(n: nat)
    ensures |FormatId(n)| >= |Prefix| + 5
    ensures forall i :: |Prefix| <= i < |FormatId(n)| ==> IsDecimalDigit(FormatId(n)[i])
  {
    var digits := NatToString(n);
    var padded := PadStartZeros(digits, 5);
    var z := Zeros(|padded| - |digits|);
    assert padded == z + digits;
    assert FormatId(n) == Prefix + padded;
    forall i | |Prefix| <= i < |FormatId(n)| ensures IsDecimalDigit(FormatId(n)[i]) {
      var j := i - |Prefix|;
      assert FormatId(n)[i] == padded[j];
      if j < |z| {
        assert padded[j] == z[j];
      } else {
        assert padded[j] == digits[j - |z|];
      }
    }
  }

  /** The numeric suffix the hook reads: parseInt of the second piece of the
      id split on " - ", in base 10. A missing second piece is parseInt of
      undefined, which is NaN (None). */
  function SuffixNumber(inquiryId: string): Option<int> {
    var pieces := Split(inquiryId, Separator);
    if |pieces| < 2 then None else ParseInt(pieces[1], Ten)
  }

  /** The id the hook computes from the most recent inquiry, if any. An
      absent or empty inquiryId there gives the first id; NaN + 1 is
      written "NaN", which padStart turns into "00NaN". */
  function NextId(latest: Option<Inquiry>): string {
    if latest.None? || latest.value.inquiryId.None? || latest.value.inquiryId.value == "" then FirstId
    else match SuffixNumber(latest.value.inquiryId.value)
      case None => Prefix + PadStartZeros("NaN", 5)
      case Some(n) => Prefix + PadStartZeros(IntToString(n + 1), 5)
  }

  /** The pre-save hook: a document with a non-empty inquiryId keeps it;
      any other gets the id that follows the most recent inquiry's. */
  function PreSave(doc: Inquiry, latest: Option<Inquiry>): (r: Inquiry)
    ensures doc.inquiryId.Some? && doc.inquiryId.value != "" ==> r == doc
    ensures !(doc.inquiryId.Some? && doc.inquiryId.value != "") ==> r == doc.(inquiryId := Some(NextId(latest)))
  {
    if doc.inquiryId.Some? && doc.inquiryId.value != "" then doc
    else doc.(inquiryId := Some(NextId(latest)))
  }

  /** The first id is the formatted number 1. */
  lemma FirstIdIsOne()
    ensures FirstId == FormatId(1)
  {
    assert NatToString(1) == "1";
    assert Zeros(4) == "0000";
  }

  /** Padding never truncates: a number of five or more digits is written
      in full, and a shorter one gets exactly five digits. */
  lemma FormatIdDigits(n: nat)
    ensures |NatToString(n)| >= 5 ==> FormatId(n) == Prefix + NatToString(n)
    ensures |NatToString(n)| < 5 ==> |FormatId(n)| == |Prefix| + 5
    ensures n >= 100000 ==> |FormatId(n)| > |Prefix| + 5
  {
    if n >= 100000 {
      NatToStringLength(n);
    }
  }

  /** A number of at least 10^5 has more than five digits. */
  lemma {:induction false} NatToStringLength(n: nat)
    requires n >= 100000
    ensures |NatToString(n)| > 5
  {
    LongNumeral(n, 5);
  }

  /** A number of at least 10^k has more than k digits. */
  lemma {:induction false} LongNumeral(n: nat, k: nat)
    requires n >= PowTen(k)
    ensures |NatToString(n)| > k
    decreases k
  {
    if k > 0 {
      assert n >= 10;
      assert n / 10 >= PowTen(k - 1);
      LongNumeral(n / 10, k - 1);
    }
  }

  function PowTen(k: nat): (r: nat)
    ensures r >= 1
  {
    if k == 0 then 1 else 10 * PowTen(k - 1)
  }

  /** The digits of a formatted id contain no space, so " - " occurs in it
      only right after "INQ". */
  lemma SplitFormatted(n: nat)
    ensures Split(FormatId(n), Separator) == ["INQ", PadStartZeros(NatToString(n), 5)]
  {
    var s := FormatId(n);
    var digits := PadStartZeros(NatToString(n), 5);
    assert s == Prefix + digits;
    assert forall k :: 0 <= k < |digits| ==> IsDecimalDigit(digits[k]) by {
      DigitsValueLeadingZeros(|digits| - |NatToString(n)|, NatToString(n));
    }
    SeparatorAfterPrefix(s, digits);
    assert s[6..] == digits;
    assert forall i :: !OccursAt(digits, Separator, i);
    SplitWithout(digits, Separator);
    assert s[..3] == "INQ";
  }

  /** In an id that starts with the prefix, the first " - " is the
      prefix's own. */
  lemma SeparatorAfterPrefix(s: string, digits: string)
    requires s == Prefix + digits
    ensures IndexFrom(s, Separator, 0) == Some(3)
  {
    assert !OccursAt(s, Separator, 0) by { assert s[0] == 'I'; }
    assert !OccursAt(s, Separator, 1) by { assert s[1] == 'N'; }
    assert !OccursAt(s, Separator, 2) by { assert s[2] == 'Q'; }
    assert OccursAt(s, Separator, 3) by { assert s[3..6] == Prefix[3..6]; }
    var r := IndexFrom(s, Separator, 0);
    assert r.Some? && r.value <= 3;
  }

  /** Round trip: the suffix of a formatted id reads back as its number. */
  lemma SuffixOfFormatted(n: nat)
    ensures SuffixNumber(FormatId(n)) == Some(n)
  {
    SplitFormatted(n);
    var s := NatToString(n);
    var digits := PadStartZeros(s, 5);
    ParseIntPadded(|digits| - |s|, n);
  }

  /** Successor: after an inquiry whose id is FormatId(n), the hook assigns
      FormatId(n + 1). */
  lemma NextIdOfFormatted(latest: Inquiry, n: nat)
    requires latest.inquiryId == Some(FormatId(n))
    ensures NextId(Some(latest)) == FormatId(n + 1)
  {
    SuffixOfFormatted(n);
    assert IntToString(n + 1) == NatToString(n + 1);
  }

  /** An id whose text has no " - " cannot be read: the hook writes
      "INQ - 00NaN". */
  lemma NextIdOfUnreadable(latest: Inquiry)
    requires latest.inquiryId.Some? && latest.inquiryId.value != ""
    requires forall i :: !OccursAt(latest.inquiryId.value, Separator, i)
    ensures NextId(Some(latest)) == "INQ - 00NaN"
  {
    var id := latest.inquiryId.value;
    SplitWithout(id, Separator);
    assert SuffixNumber(id) == None;
    NaNPadded();
  }

  /** padStart(5, '0') of "NaN". */
  lemma NaNPadded()
    ensures Prefix + PadStartZeros("NaN", 5) == "INQ - 00NaN"
  {
    assert Zeros(2) == "00";
  }

  /** The request body of a new inquiry, as strings; an unset optional
      field is None. */
  datatype Draft = Draft(
    firstName: string,
    lastName: string,
    nic: string,
    requirement: Id,
    rating: Option<real>,
    assignee: Option<Id>,
    acknowledgement: Option<string>,
    notes: Option<string>,
    status: Option<string>)

  /** The schema paths whose validators fail, in schema order: the required
      strings and requirement must be non-empty and a given rating must lie
      in 1..5. */
  function FailingPaths(d: Draft): (r: seq<string>)
    ensures r == [] <==> d.firstName != "" && d.lastName != "" && d.requirement != "" && d.nic != ""
                         && (d.rating.None? || 1.0 <= d.rating.value <= 5.0)
  {
    (if d.firstName == "" then ["firstName"] else [])
    + (if d.lastName == "" then ["lastName"] else [])
    + (if d.requirement == "" then ["requirement"] else [])
    + (if d.nic == "" then ["nic"] else [])
    + (if d.rating.Some? && (d.rating.value < 1.0 || d.rating.value > 5.0) then ["rating"] else [])
  }

  datatype SaveResult =
    | Saved(doc: Inquiry)
    | ValidationFailed(paths: seq<string>)
    | DuplicateKey

  /** The HTTP status the create route answers with. */
  function StatusOf(r: SaveResult): (code: int)
    ensures code == 200 <==> r.Saved?
    ensures code == 500 <==> !r.Saved?
  {
    if r.Saved? then 200 else 500
  }

  /** Every inquiryId in the collection is different (the unique index). */
  ghost predicate UniqueIds(docs: seq<Inquiry>) {
    forall i, j :: 0 <= i < j < |docs| && docs[i].inquiryId.Some? ==> docs[i].inquiryId != docs[j].inquiryId
  }

  class InquiryCollection {
    var docs: seq<Inquiry>

    ghost predicate Valid()
      reads this
    {
      UniqueIds(docs)
    }

    constructor ()
      ensures docs == [] && Valid()
    {
      docs := [];
    }

    /** `new Inquiry({...}).save()` at time `now` with the fresh ObjectId
        `id`: validation first, then the pre-save hook, then the insert,
        which the unique index on inquiryId (and on _id) refuses for a value
        already stored. */
    method Create(d: Draft, id: Id, now: int) returns (result: SaveResult)
      requires Valid()
      modifies this
      ensures Valid()
      ensures FailingPaths(d) != [] ==> result == ValidationFailed(FailingPaths(d)) && docs == old(docs)
      ensures result.Saved? ==> docs == old(docs) + [result.doc]
      ensures result.Saved? ==> result.doc == Inquiry(id, Some(NextId(Newest(old(docs), InquiryCreatedAt))),
        d.firstName, d.lastName, d.nic, d.requirement, d.rating, d.assignee, d.acknowledgement, d.notes,
        Some(d.status.GetOr(DefaultStatus)), now)
      ensures result == SaveResult.DuplicateKey ==> docs == old(docs)
      ensures FailingPaths(d) == [] ==> (result.Saved? <==>
        forall x :: x in old(docs) ==> x.id != id && x.inquiryId != Some(NextId(Newest(old(docs), InquiryCreatedAt))))
    {
      var failing := FailingPaths(d);
      if failing != [] {
        return ValidationFailed(failing);
      }
      var doc := Inquiry(id, None, d.firstName, d.lastName, d.nic, d.requirement, d.rating, d.assignee,
                         d.acknowledgement, d.notes, Some(d.status.GetOr(DefaultStatus)), now);
      var lastInquiry := Newest(docs, InquiryCreatedAt);
      doc := PreSave(doc, lastInquiry);
      var i := 0;
      while i < |docs|
        invariant 0 <= i <= |docs|
        invariant forall k :: 0 <= k < i ==> docs[k].id != id && docs[k].inquiryId != doc.inquiryId
      {
        if docs[i].id == id || docs[i].inquiryId == doc.inquiryId {
          return SaveResult.DuplicateKey;
        }
        i := i + 1;
      }
      docs := docs + [doc];
      result := Saved(doc);
    }
  }

  /** A record created after every stored one is the newest afterwards. */
  lemma NewestAfterAppend(docs: seq<Inquiry>, d: Inquiry)
    requires forall x :: x in docs ==> x.createdAt < d.createdAt
    ensures Newest(docs + [d], InquiryCreatedAt) == Some(d)
  {
    var r := Newest(docs + [d], InquiryCreatedAt);
    assert d in docs + [d];
    assert r.value in docs + [d];
  }

  /** Sequential saves number consecutively: once the newest inquiry holds
      FormatId(n), a later save gets FormatId(n + 1), and the one after it
      FormatId(n + 2). */
  lemma ConsecutiveIds(docs: seq<Inquiry>, latest: Inquiry, n: nat, next: Inquiry)
    requires Newest(docs, InquiryCreatedAt) == Some(latest)
    requires latest.inquiryId == Some(FormatId(n))
    requires next.inquiryId == Some(NextId(Newest(docs, InquiryCreatedAt)))
    requires forall x :: x in docs ==> x.createdAt < next.createdAt
    ensures next.inquiryId == Some(FormatId(n + 1))
    ensures NextId(Newest(docs + [next], InquiryCreatedAt)) == FormatId(n + 2)
  {
    NextIdOfFormatted(latest, n);
    NewestAfterAppend(docs, next);
    NextIdOfFormatted(next, n + 1);
  }
}
