/** GET /api/inquiries (main/routes/inquiry.route.js): the paginated,
    filtered, role-scoped inquiry listing. The database is a value `Db`
    holding the four collections; the logged-in user the desktop store
    returns is an input that may be absent. */
module InquiryQuery {
  import opened Wrappers
  import opened JsText
  import opened Records

  /** The query string; a parameter that is not given is None. */
  datatype Query = Query(
    page: Option<string>,
    limit: Option<string>,
    status: Option<string>,
    section: Option<string>,
    assignee: Option<string>,
    acknowledgement: Option<string>)

  /** The user record the desktop shell's store holds for the session. */
  datatype Session = Session(userId: Option<Id>, userRole: Option<string>)

  datatype Db = Db(
    inquiries: seq<Inquiry>,
    requirements: seq<Requirement>,
    sections: seq<Section>,
    users: seq<User>)

  /** The populated assignee: identity, name fields and reference number. */
  datatype AssigneeView = AssigneeView(id: Id, firstName: string, lastName: string, referenceNo: string)

  /** A populated requirement with its populated section (null when the
      section document is gone). */
  datatype RequirementView = RequirementView(requirement: Requirement, section: Option<Section>)

  /** An inquiry as returned: the document with requirement and assignee
      populated (each null when the referenced document is missing or, for
      section staff, when the requirement is in another section). */
  datatype InquiryView = InquiryView(
    inquiry: Inquiry,
    requirement: Option<RequirementView>,
    assignee: Option<AssigneeView>)

  datatype Pagination = Pagination(page: int, limit: int, total: nat, pages: int)

  /** Why the handler answers 500: reading `userRole` of a null session,
      reading `section` of a requester the users collection does not hold,
      or a negative skip, which the database refuses. */
  datatype Failure = NoLoggedInUser | RequesterNotFound | NegativeSkip

  datatype Response =
    | Listed(inquiries: seq<InquiryView>, pagination: Pagination)
    | ServerError(failure: Failure)

  const SectionStaffRole := "section staff"

  // ---------------------------------------------------------------------
  // Parameters
  // ---------------------------------------------------------------------

  /** A query parameter that JavaScript treats as true: present and not "". */
  predicate Truthy(p: Option<string>) {
    p.Some? && p.value != ""
  }

  /** parseInt(p) || d: a missing parameter parses as NaN, and NaN and 0
      both give way to the default. */
  function ParsedOr(p: Option<string>, d: int): int {
    if p.None? then d
    else match ParseInt(p.value, Unspecified)
      case None => d
      case Some(n) => if n == 0 then d else n
  }

  function PageOf(q: Query): int { ParsedOr(q.page, 1) }

  function LimitOf(q: Query): int { ParsedOr(q.limit, 0) }

  /** limit > 0 ? (page - 1) * limit : 0 */
  function SkipOf(page: int, limit: int): int {
    if limit > 0 then (page - 1) * limit else 0
  }

  /** limit > 0 ? Math.ceil(total / limit) : 1 */
  function PageCount(total: nat, limit: int): int {
    if limit > 0 then (total + limit - 1) / limit else 1
  }

  /** page defaults to 1 and limit to 0, the skip is 0 whenever the limit is
      not positive and (page - 1) * limit otherwise; a given page or limit
      that parses to a non-zero integer is used as is. */
  lemma PagingParameters(q: Query)
    ensures PageOf(q) != 0
    ensures q.page.None? || ParseInt(q.page.value, Unspecified) in {None, Some(0)} ==> PageOf(q) == 1
    ensures q.page.Some? && ParseInt(q.page.value, Unspecified).Some? && PageOf(q) != 1
      ==> ParseInt(q.page.value, Unspecified) == Some(PageOf(q))
    ensures q.limit.None? || ParseInt(q.limit.value, Unspecified) == None ==> LimitOf(q) == 0
    ensures LimitOf(q) != 0 ==> q.limit.Some? && ParseInt(q.limit.value, Unspecified) == Some(LimitOf(q))
    ensures LimitOf(q) <= 0 ==> SkipOf(PageOf(q), LimitOf(q)) == 0
    ensures LimitOf(q) > 0 ==> SkipOf(PageOf(q), LimitOf(q)) == (PageOf(q) - 1) * LimitOf(q)
  {
  }

  /** A page parameter with no leading digits reads as page 1. */
  lemma PageOfNonNumeric()
    ensures PageOf(Query(Some("abc"), None, None, None, None, None)) == 1
  {
    var s := "abc";
    assert !IsSpace(s[0]);
    assert TrimStart(s) == s;
    assert !HasHexPrefix(s, Unspecified);
    assert LeadingDigits(s, false) == [];
    assert UnsignedParse(s, Unspecified) == None;
    assert ParseInt(s, Unspecified) == None;
  }

  /** parseInt stops at the first character that is not a digit. */
  lemma PageOfDigitsThenText()
    ensures PageOf(Query(Some(" 3rd"), None, None, None, None, None)) == 3
  {
    var s := " 3rd";
    var t := "3rd";
    DigitsThenTextDigits(t);
    assert t[0] != '-' && t[0] != '+' && !HasHexPrefix(t, Unspecified);
    assert s == [' '] + t;
    TrimStartOfSpaced(' ', t);
  }

  /** The digits read from "3rd". */
  lemma DigitsThenTextDigits(t: string)
    requires t == "3rd"
    ensures LeadingDigits(t, false) == "3" && DigitsValue("3", false) == 3
  {
    assert IsDigitOf(t[0], false) && t[1..] == "rd";
    assert LeadingDigits("rd", false) == [] by { assert !IsDigitOf('r', false); }
    OneDigit('3', false);
  }

  /** Without a radix, parseInt reads a 0x prefix as hexadecimal. */
  lemma PageOfHexadecimal()
    ensures PageOf(Query(Some("0x1A"), None, None, None, None, None)) == 26
  {
    var s := "0x1A";
    HexadecimalDigits(s[2..]);
    assert HasHexPrefix(s, Unspecified) && s[0] != '-' && s[0] != '+';
    assert TrimStart(s) == s by { assert !IsSpace(s[0]); }
  }

  /** The digits read from "1A" in base 16. */
  lemma HexadecimalDigits(ds: string)
    requires ds == "1A"
    ensures LeadingDigits(ds, true) == ds && DigitsValue(ds, true) == 26
  {
    LeadingDigitsAll(ds, true);
    assert ds[..1] == "1";
    OneDigit('1', true);
  }

  /** A negative page is used as given. */
  lemma PageOfNegative()
    ensures PageOf(Query(Some("-2"), None, None, None, None, None)) == -2
  {
    var s := "-2";
    LeadingDigitsAll("2", false);
    OneDigit('2', false);
    assert s[0] == '-' && s[1..] == "2" && !HasHexPrefix("2", Unspecified);
    assert TrimStart(s) == s by { assert !IsSpace(s[0]); }
  }

  /** pages is Math.ceil(total / limit) when the limit is positive: the
      fewest pages of that size that hold all `total` records. */
  lemma PageCountIsCeiling(total: nat, limit: int)
    requires limit > 0
    ensures PageCount(total, limit) >= 0
    ensures PageCount(total, limit) * limit >= total
    ensures (PageCount(total, limit) - 1) * limit < total
    ensures PageCount(total, limit) == 0 <==> total == 0
  {
    var p := PageCount(total, limit);
    var m := total + limit - 1;
    assert p == m / limit;
    assert m == p * limit + m % limit;
    assert 0 <= m % limit < limit;
  }

  /** The items of a comma-separated list that survive `.map(s =>
      s.trim()).filter(s => s)`: trimmed, and non-empty. */
  function NonEmptyTrimmed(pieces: seq<string>): (r: seq<string>)
    ensures forall x :: x in r ==> x != "" && exists p :: p in pieces && Trim(p) == x
    ensures forall p :: p in pieces && Trim(p) != "" ==> Trim(p) in r
  {
    if pieces == [] then []
    else
      var t := Trim(pieces[0]);
      (if t != "" then [t] else []) + NonEmptyTrimmed(pieces[1..])
  }

  /** `s.split(',').map(s => s.trim()).filter(s => s)` (assignee,
      acknowledgement and section lists). */
  function ParseNameList(s: string): seq<string> {
    NonEmptyTrimmed(Split(s, ","))
  }

  /** The codes of a status list: `.map(s => parseInt(s.trim())).filter(s
      => !isNaN(s))` keeps exactly the pieces that parse. */
  function ParsedCodes(pieces: seq<string>): (r: seq<int>)
    ensures forall n :: n in r ==> exists p :: p in pieces && ParseInt(Trim(p), Unspecified) == Some(n)
    ensures forall p :: p in pieces && ParseInt(Trim(p), Unspecified).Some? ==> ParseInt(Trim(p), Unspecified).value in r
  {
    if pieces == [] then []
    else
      var head := match ParseInt(Trim(pieces[0]), Unspecified)
        case Some(n) => [n]
        case None => [];
      var rest := ParsedCodes(pieces[1..]);
      head + rest
  }

  function ParseStatusList(s: string): seq<int> {
    ParsedCodes(Split(s, ","))
  }

  /** Every item of a parsed name list is non-empty, has no surrounding
      whitespace and contains no comma. */
  lemma NameListItems(s: string)
    ensures forall x :: x in ParseNameList(s) ==> x != "" && Trim(x) == x && ',' !in x
  {
    SplitPiecesAvoid(s, ',');
    forall x | x in ParseNameList(s) ensures x != "" && Trim(x) == x && ',' !in x {
      var p :| p in Split(s, ",") && Trim(p) == x;
      TrimIdempotent(p);
      assert ',' !in p;
    }
  }

  /** The parameter's list, or the empty list when it is not truthy. */
  function NamesOf(p: Option<string>): seq<string> {
    if Truthy(p) then ParseNameList(p.value) else []
  }

  function CodesOf(p: Option<string>): seq<int> {
    if Truthy(p) then ParseStatusList(p.value) else []
  }

  // ---------------------------------------------------------------------
  // The filter document and its meaning
  // ---------------------------------------------------------------------

  /** The `filterQuery` document: each field present only when its list was
      non-empty. `requirementIn` is the requirement-id clause the count
      query adds for a section list. */
  datatype Filter = Filter(
    status: Option<seq<int>>,
    assignee: Option<seq<Id>>,
    acknowledgement: Option<seq<string>>,
    requirementIn: Option<seq<Id>>)

  /** How the database evaluates the filter on one document. A status code
      is compared with the stored text through String(n), as the String
      schema path casts it; the acknowledgement clause is the conjunction of
      $in, $ne null and $ne ''. */
  predicate Matches(f: Filter, r: Inquiry) {
    (f.status.Some? ==> exists n :: n in f.status.value && r.status == Some(IntToString(n)))
    && (f.assignee.Some? ==> r.assignee.Some? && r.assignee.value in f.assignee.value)
    && (f.acknowledgement.Some? ==>
          (r.acknowledgement.Some? && r.acknowledgement.value in f.acknowledgement.value)
          && r.acknowledgement != None
          && r.acknowledgement != Some(""))
    && (f.requirementIn.Some? ==> r.requirement in f.requirementIn.value)
  }

  /** What the status, assignee and acknowledgement parameters ask of a
      record, stated on the parsed lists: an empty list asks nothing. */
  predicate BaseWanted(q: Query, r: Inquiry) {
    var codes := CodesOf(q.status);
    var assignees := NamesOf(q.assignee);
    var acks := NamesOf(q.acknowledgement);
    (codes != [] ==> exists n :: n in codes && r.status == Some(IntToString(n)))
    && (assignees != [] ==> r.assignee.Some? && r.assignee.value in assignees)
    && (acks != [] ==> r.acknowledgement.Some? && r.acknowledgement.value in acks && r.acknowledgement.value != "")
  }

  /** The section parameter for roles other than section staff: the record's
      requirement is one of the requirements of a listed section. */
  predicate SectionWanted(db: Db, q: Query, r: Inquiry) {
    var sections := NamesOf(q.section);
    sections != [] ==> exists req :: req in db.requirements && req.id == r.requirement && req.section in sections
  }

  /** Every record matching the composed filter, in collection order. */
  function Matching(db: Db, q: Query): (m: seq<Inquiry>)
    ensures forall r :: r in m <==> r in db.inquiries && BaseWanted(q, r) && SectionWanted(db, q, r)
  {
    Where(db.inquiries, (r: Inquiry) => BaseWanted(q, r) && SectionWanted(db, q, r))
  }

  /** The records matching the status/assignee/acknowledgement filter only. */
  function BaseMatching(db: Db, q: Query): seq<Inquiry> {
    Where(db.inquiries, (r: Inquiry) => BaseWanted(q, r))
  }

  /** The acknowledgement filter never lets through a record without an
      acknowledgement or with an empty one, whatever the list holds. */
  lemma AcknowledgementExcludesEmpty(db: Db, q: Query, r: Inquiry)
    requires NamesOf(q.acknowledgement) != []
    requires r in BaseMatching(db, q)
    ensures r.acknowledgement.Some? && r.acknowledgement.value != ""
    ensures r.acknowledgement.value in NamesOf(q.acknowledgement)
  {
  }

  /** Roles other than section staff: with a section list, every matching
      record's requirement belongs to a listed section. */
  lemma MatchingRespectsSections(db: Db, q: Query, r: Inquiry)
    requires NamesOf(q.section) != []
    requires r in Matching(db, q)
    ensures exists req :: req in db.requirements && req.id == r.requirement && req.section in NamesOf(q.section)
  {
  }

  /** The filter document built from the query's status, assignee and
      acknowledgement parameters: a clause for each non-empty list. */
  function BaseFilter(q: Query): Filter {
    Filter(
      if CodesOf(q.status) != [] then Some(CodesOf(q.status)) else None,
      if NamesOf(q.assignee) != [] then Some(NamesOf(q.assignee)) else None,
      if NamesOf(q.acknowledgement) != [] then Some(NamesOf(q.acknowledgement)) else None,
      None)
  }

  /** The count query of the roles other than section staff: the base
      filter plus, for a non-empty section list, the ids of the requirements
      of the listed sections. */
  function CountFilter(db: Db, q: Query): Filter {
    var sections := NamesOf(q.section);
    BaseFilter(q).(requirementIn := if sections != [] then Some(RequirementIdsIn(db.requirements, sections)) else None)
  }

  /** The filter document asks of a record exactly what the parameters ask. */
  lemma BaseFilterMeaning(q: Query, r: Inquiry)
    ensures Matches(BaseFilter(q), r) <==> BaseWanted(q, r)
  {
    NameListItemsNonEmpty(q.acknowledgement, r);
  }

  /** The count query matches exactly the records of Matching. */
  lemma CountFilterMeaning(db: Db, q: Query, r: Inquiry)
    ensures Matches(CountFilter(db, q), r) <==> BaseWanted(q, r) && SectionWanted(db, q, r)
  {
    BaseFilterMeaning(q, r);
    RequirementIdsMeaning(db.requirements, NamesOf(q.section), r.requirement);
  }

  // ---------------------------------------------------------------------
  // Fetching: skip/limit, populate
  // ---------------------------------------------------------------------

  /** `.skip(skip).limit(limit)` on a non-negative skip: a limit of 0 takes
      everything after the skipped records; a negative limit takes as many
      as its magnitude (the driver sends the absolute value). */
  function Page<T>(s: seq<T>, skip: nat, limit: int): (r: seq<T>)
    ensures var from := if skip <= |s| then skip else |s|;
      from + |r| <= |s| && r == s[from..from + |r|]
      && (limit == 0 ==> r == s[from..])
      && (limit != 0 ==> |r| == Min(Abs(limit), |s| - from))
  {
    var rest := if skip <= |s| then s[skip..] else [];
    if limit == 0 || Abs(limit) >= |rest| then rest else rest[..Abs(limit)]
  }

  function Abs(x: int): nat { if x < 0 then -x else x }

  function Min(a: int, b: int): int { if a < b then a else b }

  /** findById on the users collection; an absent id finds nothing. */
  function FindUser(us: seq<User>, id: Option<Id>): (r: Option<User>)
    ensures r.Some? ==> id.Some? && r.value in us && r.value.id == id.value
    ensures r.None? && id.Some? ==> forall x :: x in us ==> x.id != id.value
  {
    if id.None? || us == [] then None
    else if us[0].id == id.value then Some(us[0])
    else FindUser(us[1..], id)
  }

  /** populate('assignee', 'firstName lastName referenceNo'). */
  function AssigneeOf(db: Db, r: Inquiry): (a: Option<AssigneeView>)
    ensures a.Some? ==> r.assignee == Some(a.value.id)
                        && exists u :: u in db.users && a.value == AssigneeView(u.id, u.firstName, u.lastName, u.referenceNo)
    ensures a.None? ==> r.assignee.None? || forall u :: u in db.users ==> u.id != r.assignee.value
  {
    match FindUser(db.users, r.assignee)
    case None => None
    case Some(u) => Some(AssigneeView(u.id, u.firstName, u.lastName, u.referenceNo))
  }

  /** populate('requirement' with its 'section'); for section staff the
      populate carries `match: { section: userSectionId }`, so a requirement
      of another section (or any requirement, when the requester has no
      section) is populated as null. */
  function RequirementOf(db: Db, r: Inquiry, staffSection: Option<Option<Id>>): (v: Option<RequirementView>)
    ensures v.Some? ==> v.value.requirement in db.requirements && v.value.requirement.id == r.requirement
    ensures v.Some? && staffSection.Some? ==> staffSection.value == Some(v.value.requirement.section)
    ensures v.None? && staffSection.None? ==> forall x :: x in db.requirements ==> x.id != r.requirement
  {
    match FindById(db.requirements, IdOfRequirement, r.requirement)
    case None => None
    case Some(req) =>
      if staffSection.Some? && staffSection.value != Some(req.section) then None
      else Some(RequirementView(req, FindById(db.sections, IdOfSection, req.section)))
  }

  /** The page with its references populated, record by record. */
  function Populate(db: Db, s: seq<Inquiry>, staffSection: Option<Option<Id>>): (r: seq<InquiryView>)
    ensures |r| == |s|
    ensures forall i :: 0 <= i < |s| ==> r[i].inquiry == s[i]
    ensures forall i :: 0 <= i < |s| ==> r[i].requirement == RequirementOf(db, s[i], staffSection)
    ensures forall i :: 0 <= i < |s| ==> r[i].assignee == AssigneeOf(db, s[i])
  {
    seq(|s|, i requires 0 <= i < |s| => InquiryView(s[i], RequirementOf(db, s[i], staffSection), AssigneeOf(db, s[i])))
  }

  function ViewCreatedAt(v: InquiryView): int { v.inquiry.createdAt }

  /** Population keeps the order of the page. */
  lemma PopulateKeepsOrder(db: Db, s: seq<Inquiry>, staffSection: Option<Option<Id>>)
    requires NewestFirstOrdered(s, InquiryCreatedAt)
    ensures NewestFirstOrdered(Populate(db, s, staffSection), ViewCreatedAt)
  {
  }

  /** The requester's record, for section staff: the session role is
      'section staff' and the users collection holds the session's id. */
  predicate IsSectionStaff(me: Option<Session>) {
    me.Some? && me.value.userRole == Some(SectionStaffRole)
  }

  /** The records the database hands back to a section staff's query: the
      base filter, newest first, then the page. */
  function StaffFetched(db: Db, q: Query): seq<Inquiry> {
    var skip := SkipOf(PageOf(q), LimitOf(q));
    Page(NewestFirst(BaseMatching(db, q), InquiryCreatedAt), if skip < 0 then 0 else skip, LimitOf(q))
  }

  /** What section staff keep of a populated record: the requirement was
      populated (it is in their own section) and, with a section list, its
      populated section is listed. */
  predicate StaffKeeps(q: Query, v: InquiryView) {
    v.requirement.Some?
    && (NamesOf(q.section) != [] ==>
          v.requirement.value.section.Some? && v.requirement.value.section.value.id in NamesOf(q.section))
  }

  // ---------------------------------------------------------------------
  // The handler
  // ---------------------------------------------------------------------

  /** The status, assignee and acknowledgement part of `filterQuery`: each
      clause is added only when its parameter is truthy and its list is not
      empty. The document it builds asks of a record exactly BaseWanted. */
  method BuildFilter(q: Query) returns (filter: Filter)
    ensures filter == BaseFilter(q)
    ensures forall r :: Matches(filter, r) <==> BaseWanted(q, r)
  {
    filter := Filter(None, None, None, None);
    if Truthy(q.status) {
      var statusArray := ParseStatusList(q.status.value);
      if |statusArray| > 0 {
        filter := filter.(status := Some(statusArray));
      }
    }
    if Truthy(q.assignee) {
      var assigneeArray := ParseNameList(q.assignee.value);
      if |assigneeArray| > 0 {
        filter := filter.(assignee := Some(assigneeArray));
      }
    }
    if Truthy(q.acknowledgement) {
      var acknowledgementArray := ParseNameList(q.acknowledgement.value);
      if |acknowledgementArray| > 0 {
        filter := filter.(acknowledgement := Some(acknowledgementArray));
      }
    }
    forall r ensures Matches(filter, r) <==> BaseWanted(q, r) {
      BaseFilterMeaning(q, r);
    }
  }

  /** The section-staff branch: fetch the page of the base filter newest
      first, populate each requirement only when it is in the requester's
      section, drop the records whose requirement came back null, then keep
      the listed sections. The total is the length of what is left. */
  method StaffListing(db: Db, q: Query, filter: Filter, userSectionId: Option<Id>, skip: nat, limit: int)
    returns (inquiries: seq<InquiryView>)
    requires filter == BaseFilter(q)
    requires skip == SkipOf(PageOf(q), LimitOf(q)) && limit == LimitOf(q)
    ensures inquiries == Where(Populate(db, StaffFetched(db, q), Some(userSectionId)), (v: InquiryView) => StaffKeeps(q, v))
    ensures NewestFirstOrdered(inquiries, ViewCreatedAt)
    ensures limit != 0 ==> |inquiries| <= Abs(limit)
    ensures forall v :: v in inquiries ==> v.requirement.Some? && userSectionId == Some(v.requirement.value.requirement.section)
    ensures forall v :: v in inquiries ==> v.inquiry in db.inquiries && BaseWanted(q, v.inquiry)
  {
    var found := Where(db.inquiries, (r: Inquiry) => Matches(filter, r));
    forall r ensures Matches(filter, r) <==> BaseWanted(q, r) {
      BaseFilterMeaning(q, r);
    }
    WhereAgrees(db.inquiries, (r: Inquiry) => Matches(filter, r), (r: Inquiry) => BaseWanted(q, r));
    var sorted := NewestFirst(found, InquiryCreatedAt);
    var fetched := Page(sorted, skip, limit);
    assert fetched == StaffFetched(db, q);
    FetchedFacts(found, sorted, fetched, skip, limit);
    inquiries := Populate(db, fetched, Some(userSectionId));
    ghost var populated := inquiries;
    PopulateKeepsOrder(db, fetched, Some(userSectionId));

    inquiries := KeepStaffRecords(q, inquiries);
    StaffResultFacts(db, q, populated, inquiries, fetched, userSectionId);
  }

  /** `inquiries.filter(inquiry => inquiry.requirement)`, then the optional
      section list: what is kept is exactly the records StaffKeeps accepts,
      in their order. */
  method KeepStaffRecords(q: Query, populated: seq<InquiryView>) returns (inquiries: seq<InquiryView>)
    requires NewestFirstOrdered(populated, ViewCreatedAt)
    ensures inquiries == Where(populated, (v: InquiryView) => StaffKeeps(q, v))
    ensures NewestFirstOrdered(inquiries, ViewCreatedAt)
  {
    inquiries := populated;
    inquiries := Where(inquiries, (v: InquiryView) => v.requirement.Some?);
    WhereKeepsOrder(populated, (v: InquiryView) => v.requirement.Some?, ViewCreatedAt);
    if Truthy(q.section) {
      var sectionArray := ParseNameList(q.section.value);
      if |sectionArray| > 0 {
        ghost var before := inquiries;
        inquiries := Where(inquiries, (v: InquiryView) => InSections(v, sectionArray));
        WhereKeepsOrder(before, (v: InquiryView) => InSections(v, sectionArray), ViewCreatedAt);
        WhereWhere(populated, (v: InquiryView) => v.requirement.Some?, (v: InquiryView) => InSections(v, sectionArray),
                   (v: InquiryView) => StaffKeeps(q, v));
      } else {
        WhereAgrees(populated, (v: InquiryView) => v.requirement.Some?, (v: InquiryView) => StaffKeeps(q, v));
      }
    } else {
      WhereAgrees(populated, (v: InquiryView) => v.requirement.Some?, (v: InquiryView) => StaffKeeps(q, v));
    }
  }

  /** `inquiry.requirement?.section?._id && sectionArray.includes(...)`. */
  predicate InSections(v: InquiryView, sectionArray: seq<Id>) {
    v.requirement.Some? && v.requirement.value.section.Some? && v.requirement.value.section.value.id in sectionArray
  }

  /** The branch for every other role: a section list becomes a clause on the
      requirement ids of the listed sections; the total counts every match
      and the page is cut from the matches newest first. */
  method OtherListing(db: Db, q: Query, filter: Filter, skip: nat, limit: int)
    returns (inquiries: seq<InquiryView>, totalCount: nat)
    requires filter == BaseFilter(q)
    ensures totalCount == |Matching(db, q)|
    ensures limit == 0 && skip == 0 ==> |inquiries| == totalCount
    ensures inquiries == Populate(db, Page(NewestFirst(Matching(db, q), InquiryCreatedAt), skip, limit), None)
    ensures NewestFirstOrdered(inquiries, ViewCreatedAt)
    ensures forall v :: v in inquiries ==> v.inquiry in db.inquiries && BaseWanted(q, v.inquiry)
  {
    var countQuery := filter;
    if Truthy(q.section) {
      var sectionArray := ParseNameList(q.section.value);
      if |sectionArray| > 0 {
        var requirementIds := RequirementIdsIn(db.requirements, sectionArray);
        countQuery := countQuery.(requirementIn := Some(requirementIds));
      }
    }
    assert countQuery == CountFilter(db, q);
    forall r | r in db.inquiries
      ensures Matches(countQuery, r) <==> BaseWanted(q, r) && SectionWanted(db, q, r)
    {
      CountFilterMeaning(db, q, r);
    }
    var found := Where(db.inquiries, (r: Inquiry) => Matches(countQuery, r));
    WhereAgrees(db.inquiries, (r: Inquiry) => Matches(countQuery, r),
                (r: Inquiry) => BaseWanted(q, r) && SectionWanted(db, q, r));
    totalCount := |found|;
    var sorted := NewestFirst(found, InquiryCreatedAt);
    var fetched := Page(sorted, skip, limit);
    FetchedFacts(found, sorted, fetched, skip, limit);
    inquiries := Populate(db, fetched, None);
    PopulateKeepsOrder(db, fetched, None);
    forall v | v in inquiries ensures v.inquiry in db.inquiries && BaseWanted(q, v.inquiry) {
      var i :| 0 <= i < |inquiries| && inquiries[i] == v;
      assert v.inquiry == fetched[i];
    }
  }

  /** A page cut from the newest-first matches is newest first, holds only
      matches, and is no longer than a non-zero limit's magnitude. */
  lemma FetchedFacts(found: seq<Inquiry>, sorted: seq<Inquiry>, fetched: seq<Inquiry>, skip: nat, limit: int)
    requires sorted == NewestFirst(found, InquiryCreatedAt)
    requires fetched == Page(sorted, skip, limit)
    ensures NewestFirstOrdered(fetched, InquiryCreatedAt)
    ensures forall r :: r in fetched ==> r in found
    ensures limit != 0 ==> |fetched| <= Abs(limit)
    ensures limit == 0 && skip == 0 ==> |fetched| == |found|
  {
    NewestFirstIsOrdered(found, InquiryCreatedAt);
    NewestFirstMembers(found, InquiryCreatedAt);
    var from := if skip <= |sorted| then skip else |sorted|;
    SliceKeepsOrder(sorted, from, from + |fetched|, InquiryCreatedAt);
    PageDrawsFrom(sorted, skip, limit);
  }

  /** A page holds only records of the sequence it is cut from. */
  lemma PageDrawsFrom<T>(s: seq<T>, skip: nat, limit: int)
    ensures forall r :: r in Page(s, skip, limit) ==> r in s
  {
    var page := Page(s, skip, limit);
    var from := if skip <= |s| then skip else |s|;
    forall r | r in page ensures r in s {
      var i :| 0 <= i < |page| && page[i] == r;
      assert page[i] == s[from + i];
    }
  }

  /** What every listing answer shares: the page and limit echoed, the
      page count computed from the total, newest first, and only records of
      the collection that match the base filter. */
  predicate ListedShape(db: Db, q: Query, resp: Response) {
    resp.Listed? ==>
      resp.pagination.page == PageOf(q) && resp.pagination.limit == LimitOf(q)
      && resp.pagination.pages == PageCount(resp.pagination.total, LimitOf(q))
      && NewestFirstOrdered(resp.inquiries, ViewCreatedAt)
      && forall v :: v in resp.inquiries ==> v.inquiry in db.inquiries && BaseWanted(q, v.inquiry)
  }

  /** The section-staff part of the handler: the requester's record is read
      first (500 when it is missing), then a negative skip fails. */
  method StaffRoute(db: Db, me: Session, q: Query, filter: Filter) returns (resp: Response)
    requires filter == BaseFilter(q)
    ensures ListedShape(db, q, resp)
    ensures FindUser(db.users, me.userId).None? ==> resp == ServerError(RequesterNotFound)
    ensures FindUser(db.users, me.userId).Some? ==>
      (SkipOf(PageOf(q), LimitOf(q)) < 0 <==> resp == ServerError(NegativeSkip))
    ensures resp.Listed? ==> FindUser(db.users, me.userId).Some? && StaffAnswer(db, q, FindUser(db.users, me.userId).value, resp)
  {
    var page := PageOf(q);
    var limit := LimitOf(q);
    var skip := if limit > 0 then (page - 1) * limit else 0;
    var user := FindUser(db.users, me.userId);
    if user.None? {
      return ServerError(RequesterNotFound);
    }
    if skip < 0 {
      return ServerError(NegativeSkip);
    }
    var inquiries := StaffListing(db, q, filter, user.value.section, skip, limit);
    resp := Listed(inquiries, Pagination(page, limit, |inquiries|, PageCount(|inquiries|, limit)));
  }

  /** The part of the handler for every other role: a negative skip fails,
      otherwise the counted matches and their page. */
  method OtherRoute(db: Db, q: Query, filter: Filter) returns (resp: Response)
    requires filter == BaseFilter(q)
    ensures ListedShape(db, q, resp)
    ensures SkipOf(PageOf(q), LimitOf(q)) < 0 <==> resp == ServerError(NegativeSkip)
    ensures resp.Listed? ==> resp.pagination.total == |Matching(db, q)|
    ensures resp.Listed? ==>
      resp.inquiries == Populate(db, Page(NewestFirst(Matching(db, q), InquiryCreatedAt), SkipOf(PageOf(q), LimitOf(q)), LimitOf(q)), None)
    ensures LimitOf(q) == 0 ==> resp.Listed? && |resp.inquiries| == resp.pagination.total
  {
    var page := PageOf(q);
    var limit := LimitOf(q);
    var skip := if limit > 0 then (page - 1) * limit else 0;
    if skip < 0 {
      return ServerError(NegativeSkip);
    }
    var inquiries, totalCount := OtherListing(db, q, filter, skip, limit);
    resp := Listed(inquiries, Pagination(page, limit, totalCount, PageCount(totalCount, limit)));
  }

  /** router.get('/'): reads the paging parameters, builds the filter, and
      answers from the section-staff branch or the branch for every other
      role. A missing session, a section staff the users collection does
      not hold and a negative skip each end in a 500. */
  method ListInquiries(db: Db, me: Option<Session>, q: Query) returns (resp: Response)
    ensures me.None? ==> resp == ServerError(NoLoggedInUser)
    ensures ListedShape(db, q, resp)
    // roles other than section staff
    ensures me.Some? && !IsSectionStaff(me) ==> (SkipOf(PageOf(q), LimitOf(q)) < 0 <==> resp == ServerError(NegativeSkip))
    ensures me.Some? && !IsSectionStaff(me) && resp.Listed? ==> resp.pagination.total == |Matching(db, q)|
    ensures me.Some? && !IsSectionStaff(me) && resp.Listed? ==>
      resp.inquiries == Populate(db, Page(NewestFirst(Matching(db, q), InquiryCreatedAt), SkipOf(PageOf(q), LimitOf(q)), LimitOf(q)), None)
    ensures me.Some? && !IsSectionStaff(me) && LimitOf(q) == 0 ==>
      resp.Listed? && |resp.inquiries| == resp.pagination.total
    // section staff
    ensures IsSectionStaff(me) && FindUser(db.users, me.value.userId).None? ==> resp == ServerError(RequesterNotFound)
    ensures IsSectionStaff(me) && FindUser(db.users, me.value.userId).Some? ==>
      (SkipOf(PageOf(q), LimitOf(q)) < 0 <==> resp == ServerError(NegativeSkip))
    ensures IsSectionStaff(me) && resp.Listed? ==> StaffAnswer(db, q, FindUser(db.users, me.value.userId).value, resp)
  {
    var filter := BuildFilter(q);
    if me.None? {
      return ServerError(NoLoggedInUser);
    }
    if me.value.userRole == Some(SectionStaffRole) {
      resp := StaffRoute(db, me.value, q, filter);
    } else {
      resp := OtherRoute(db, q, filter);
    }
  }

  /** What a section staff member is answered: the staff page, which only
      holds records of the requester's own section, whose total is its own
      length and which is never longer than the limit. */
  predicate StaffAnswer(db: Db, q: Query, user: User, resp: Response)
    requires resp.Listed?
  {
    resp.inquiries == Where(Populate(db, StaffFetched(db, q), Some(user.section)), (v: InquiryView) => StaffKeeps(q, v))
    && resp.pagination.total == |resp.inquiries|
    && (LimitOf(q) != 0 ==> |resp.inquiries| <= Abs(LimitOf(q)))
    && forall v :: v in resp.inquiries ==> v.requirement.Some? && user.section == Some(v.requirement.value.requirement.section)
  }

  /** The values the acknowledgement list can hold are never "", which is
      why its `$ne: ''` clause adds nothing to `$in` (and why the filter
      matches BaseWanted). */
  lemma NameListItemsNonEmpty(p: Option<string>, r: Inquiry)
    ensures r.acknowledgement.Some? && r.acknowledgement.value in NamesOf(p) ==> r.acknowledgement.value != ""
  {
  }

  /** `Requirement.find({ section: { $in: sectionArray } })` projected on _id. */
  function RequirementIdsIn(rs: seq<Requirement>, sections: seq<Id>): (ids: seq<Id>)
    ensures forall id :: id in ids <==> exists req :: req in rs && req.section in sections && req.id == id
  {
    if rs == [] then []
    else (if rs[0].section in sections then [rs[0].id] else []) + RequirementIdsIn(rs[1..], sections)
  }

  lemma RequirementIdsMeaning(rs: seq<Requirement>, sections: seq<Id>, id: Id)
    ensures sections != [] ==>
      (id in RequirementIdsIn(rs, sections) <==> exists req :: req in rs && req.id == id && req.section in sections)
  {
  }

  /** The section-staff result: what the page cut and the two filters leave. */
  lemma StaffResultFacts(db: Db, q: Query, populated: seq<InquiryView>, kept: seq<InquiryView>,
                         fetched: seq<Inquiry>, userSection: Option<Id>)
    requires populated == Populate(db, fetched, Some(userSection))
    requires kept == Where(populated, (v: InquiryView) => StaffKeeps(q, v))
    requires LimitOf(q) != 0 ==> |fetched| <= Abs(LimitOf(q))
    requires forall r :: r in fetched ==> r in db.inquiries && BaseWanted(q, r)
    ensures LimitOf(q) != 0 ==> |kept| <= Abs(LimitOf(q))
    ensures forall v :: v in kept ==> v.requirement.Some? && userSection == Some(v.requirement.value.requirement.section)
    ensures forall v :: v in kept ==> v.inquiry in db.inquiries && BaseWanted(q, v.inquiry)
  {
    forall v | v in kept
      ensures v.requirement.Some? && userSection == Some(v.requirement.value.requirement.section)
      ensures v.inquiry in db.inquiries && BaseWanted(q, v.inquiry)
    {
      assert v in populated;
      var i :| 0 <= i < |populated| && populated[i] == v;
      assert v.inquiry == fetched[i];
    }
  }
}
