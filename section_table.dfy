/** The section routes (main/routes/section.route.js) over the sections
    collection, held as a table in a class. sectionId is unique (the
    routes check it and the schema declares a unique index); the schema
    requires sectionId and name. */
module SectionTable {
  import opened Wrappers
  import opened Records

  const DuplicateMessage := "Section ID already exists"
  const NotFoundMessage := "Section not found"
  const CreatedMessage := "Section created successfully"
  const UpdatedMessage := "Section updated successfully"
  const DeletedMessage := "Section deleted successfully"

  /** Ids and sectionIds are unique, and every stored section carries the
      required fields. */
  ghost predicate WellFormed(rows: seq<Section>) {
    (forall i, j :: 0 <= i < j < |rows| ==> rows[i].id != rows[j].id)
    && (forall i, j :: 0 <= i < j < |rows| ==> rows[i].sectionId != rows[j].sectionId)
    && (forall i :: 0 <= i < |rows| ==> rows[i].sectionId != "" && rows[i].name != "")
  }

  /** `Section.findOne({ sectionId })` finds something. */
  predicate SectionIdTaken(rows: seq<Section>, sectionId: string) {
    exists s :: s in rows && s.sectionId == sectionId
  }

  /** The section as the update route leaves it: a truthy sectionId that
      differs from the current one replaces it (when the route did not
      refuse it), and a truthy name replaces the name. */
  function Updated(s: Section, sectionId: string, name: string): (r: Section)
    ensures r.id == s.id && r.createdAt == s.createdAt
    ensures r.sectionId == (if sectionId != "" then sectionId else s.sectionId)
    ensures r.name == (if name != "" then name else s.name)
  {
    s.(sectionId := if sectionId != "" && sectionId != s.sectionId then sectionId else s.sectionId,
       name := if name != "" then name else s.name)
  }

  /** The requirements of one section, newest first: exactly those whose
      section is its id. */
  function RequirementsOf(requirements: seq<Requirement>, sec: Section): (r: seq<Requirement>)
    ensures NewestFirstOrdered(r, RequirementCreatedAt)
    ensures forall x :: x in r <==> x in requirements && x.section == sec.id
  {
    var mine := Where(requirements, (x: Requirement) => x.section == sec.id);
    NewestFirstIsOrdered(mine, RequirementCreatedAt);
    NewestFirstMembers(mine, RequirementCreatedAt);
    NewestFirst(mine, RequirementCreatedAt)
  }

  /** A section paired with its requirements, as the listing returns it. */
  datatype SectionWithRequirements = SectionWithRequirements(section: Section, requirements: seq<Requirement>)

  class Sections {
    var rows: seq<Section>

    ghost predicate Valid()
      reads this
    {
      WellFormed(rows)
    }

    constructor ()
      ensures Valid() && rows == []
    {
      rows := [];
    }

    /** POST /: 400 for a sectionId already present, then the schema's
        required fields, then the new section is stored. */
    method Create(sectionId: string, name: string, id: Id, now: int) returns (reply: Reply)
      requires Valid()
      modifies this
      ensures Valid()
      ensures SectionIdTaken(old(rows), sectionId) ==> reply == Refused(400, DuplicateMessage) && rows == old(rows)
      ensures !SectionIdTaken(old(rows), sectionId) && (sectionId == "" || name == "") ==>
        reply.Failure? && reply.cause.ValidationError? && rows == old(rows)
      ensures reply.Success? <==> !SectionIdTaken(old(rows), sectionId) && sectionId != "" && name != ""
                                  && forall x :: x in old(rows) ==> x.id != id
      ensures reply.Success? ==> reply.message == CreatedMessage && rows == old(rows) + [Section(id, sectionId, name, now)]
      ensures !reply.Success? ==> rows == old(rows)
    {
      var i := 0;
      while i < |rows|
        invariant 0 <= i <= |rows|
        invariant forall k :: 0 <= k < i ==> rows[k].sectionId != sectionId
      {
        if rows[i].sectionId == sectionId {
          return Refused(400, DuplicateMessage);
        }
        i := i + 1;
      }
      var failing := (if sectionId == "" then ["sectionId"] else []) + (if name == "" then ["name"] else []);
      if failing != [] {
        return Failure(ValidationError(failing));
      }
      var clash := IndexOfId(rows, IdOfSection, id);
      if clash.Some? {
        assert rows[clash.value] in rows && rows[clash.value].id == id;
        return Failure(DuplicateKey);
      }
      assert forall k :: 0 <= k < |rows| ==> IdOfSection(rows[k]) != id;
      rows := rows + [Section(id, sectionId, name, now)];
      reply := Success(CreatedMessage);
    }

    /** GET /:id: the section with that id, or 404. Nothing changes. */
    method GetById(id: Id) returns (status: int, found: Option<Section>)
      ensures found.Some? ==> status == 200 && found.value in rows && found.value.id == id
      ensures found.None? <==> status == 404
      ensures found.None? <==> forall x :: x in rows ==> x.id != id
    {
      var at := IndexOfId(rows, IdOfSection, id);
      if at.None? {
        return 404, None;
      }
      status, found := 200, Some(rows[at.value]);
    }

    /** PUT /:id: 404 for a missing id; a new sectionId that is already
        taken gives 400 and nothing is saved; otherwise the section is
        saved with the fields Updated describes. */
    method Update(id: Id, sectionId: string, name: string) returns (reply: Reply)
      requires Valid()
      modifies this
      ensures Valid()
      ensures IndexOfId(old(rows), IdOfSection, id).None? ==> reply == Refused(404, NotFoundMessage) && rows == old(rows)
      ensures IndexOfId(old(rows), IdOfSection, id).Some? ==>
        var i := IndexOfId(old(rows), IdOfSection, id).value;
        var current := old(rows)[i];
        if sectionId != "" && sectionId != current.sectionId && SectionIdTaken(old(rows), sectionId) then
          reply == Refused(400, DuplicateMessage) && rows == old(rows)
        else
          reply == Success(UpdatedMessage) && rows == old(rows)[i := Updated(current, sectionId, name)]
    {
      var at := IndexOfId(rows, IdOfSection, id);
      if at.None? {
        return Refused(404, NotFoundMessage);
      }
      var k := at.value;
      var section := rows[k];
      if sectionId != "" && sectionId != section.sectionId {
        var j := 0;
        while j < |rows|
          invariant 0 <= j <= |rows|
          invariant forall m :: 0 <= m < j ==> rows[m].sectionId != sectionId
        {
          if rows[j].sectionId == sectionId {
            return Refused(400, DuplicateMessage);
          }
          j := j + 1;
        }
        section := section.(sectionId := sectionId);
      }
      if name != "" {
        section := section.(name := name);
      }
      ghost var before := rows;
      rows := rows[k := section];
      UpdateKeepsWellFormed(before, k, sectionId, name);
      reply := Success(UpdatedMessage);
    }

    /** DELETE /:id: removes only the section (requirements that refer to it
        stay where they are); 404 when it is absent. */
    method Delete(id: Id) returns (reply: Reply)
      requires Valid()
      modifies this
      ensures Valid()
      ensures IndexOfId(old(rows), IdOfSection, id).None? ==> reply == Refused(404, NotFoundMessage) && rows == old(rows)
      ensures IndexOfId(old(rows), IdOfSection, id).Some? ==>
        var i := IndexOfId(old(rows), IdOfSection, id).value;
        reply == Success(DeletedMessage) && rows == old(rows)[..i] + old(rows)[i + 1..]
    {
      var at := IndexOfId(rows, IdOfSection, id);
      if at.None? {
        return Refused(404, NotFoundMessage);
      }
      var k := at.value;
      ghost var before := rows;
      rows := rows[..k] + rows[k + 1..];
      RemoveKeepsWellFormed(before, k);
      reply := Success(DeletedMessage);
    }

    /** GET /: every section, in collection order, with exactly the
        requirements whose section is its id, newest first. Nothing changes. */
    method ListWithRequirements(requirements: seq<Requirement>) returns (result: seq<SectionWithRequirements>)
      ensures |result| == |rows|
      ensures forall i :: 0 <= i < |rows| ==> result[i].section == rows[i]
      ensures forall i :: 0 <= i < |rows| ==>
        result[i].requirements == RequirementsOf(requirements, rows[i])
      ensures forall i :: 0 <= i < |rows| ==> NewestFirstOrdered(result[i].requirements, RequirementCreatedAt)
      ensures forall i, r :: 0 <= i < |rows| ==> (r in result[i].requirements <==> r in requirements && r.section == rows[i].id)
    {
      result := [];
      var i := 0;
      while i < |rows|
        invariant 0 <= i <= |rows|
        invariant |result| == i
        invariant forall k :: 0 <= k < i ==> result[k].section == rows[k]
        invariant forall k :: 0 <= k < i ==>
          result[k].requirements == RequirementsOf(requirements, rows[k])
      {
        var sec := rows[i];
        var sorted := RequirementsOf(requirements, sec);
        ghost var before := result;
        result := result + [SectionWithRequirements(sec, sorted)];
        assert result[i].section == sec && result[i].requirements == sorted;
        assert forall k :: 0 <= k < i ==> result[k] == before[k];
        i := i + 1;
      }
      forall k | 0 <= k < |rows|
        ensures NewestFirstOrdered(result[k].requirements, RequirementCreatedAt)
        ensures forall r :: r in result[k].requirements <==> r in requirements && r.section == rows[k].id
      {
        assert result[k].requirements == RequirementsOf(requirements, rows[k]);
      }
    }
  }

  /** The update route keeps the table well formed: a changed sectionId is
      one no row holds, and a replaced name is non-empty. */
  lemma UpdateKeepsWellFormed(rows: seq<Section>, k: nat, sectionId: string, name: string)
    requires WellFormed(rows) && k < |rows|
    requires sectionId != "" && sectionId != rows[k].sectionId ==> !SectionIdTaken(rows, sectionId)
    ensures WellFormed(rows[k := Updated(rows[k], sectionId, name)])
  {
    var t := rows[k := Updated(rows[k], sectionId, name)];
    forall i, j | 0 <= i < j < |t| ensures t[i].sectionId != t[j].sectionId {
      if i == k && t[i].sectionId != rows[k].sectionId {
        assert rows[j] in rows;
      } else if j == k && t[j].sectionId != rows[k].sectionId {
        assert rows[i] in rows;
      }
    }
  }

  /** Removing one row keeps the table well formed. */
  lemma RemoveKeepsWellFormed(rows: seq<Section>, k: nat)
    requires WellFormed(rows) && k < |rows|
    ensures WellFormed(rows[..k] + rows[k + 1..])
  {
    var t := rows[..k] + rows[k + 1..];
    assert forall i :: 0 <= i < |t| ==> t[i] == rows[if i < k then i else i + 1];
  }
}
