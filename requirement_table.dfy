/** The requirement routes (main/routes/requirement.route.js) over the
    requirements collection, held as a table in a class. The routes keep
    (name, section) unique; ids are unique as MongoDB keeps _id unique. */
module RequirementTable {
  import opened Wrappers
  import opened Records

  const DuplicateMessage := "Requirement already exists for this section"
  const NotFoundMessage := "Requirement not found"
  const CreatedMessage := "Requirement created successfully"
  const UpdatedMessage := "Requirement updated successfully"
  const DeletedMessage := "Requirement deleted successfully"

  /** No two rows share an id, and no two share a (name, section) pair. */
  ghost predicate UniqueRows(rows: seq<Requirement>) {
    (forall i, j :: 0 <= i < j < |rows| ==> rows[i].id != rows[j].id)
    && (forall i, j :: 0 <= i < j < |rows| ==> (rows[i].name, rows[i].section) != (rows[j].name, rows[j].section))
  }

  /** `Requirement.findOne({ name, section, _id: { $ne: except } })` finds
      something; `except` None is the create route's query without the
      id clause. */
  predicate PairTaken(rows: seq<Requirement>, name: string, section: Id, except: Option<Id>) {
    exists r :: r in rows && r.name == name && r.section == section && (except.None? || r.id != except.value)
  }

  /** A record's own pair never conflicts with itself in an update. */
  lemma OwnPairNoConflict(rows: seq<Requirement>, i: nat)
    requires UniqueRows(rows) && i < |rows|
    ensures !PairTaken(rows, rows[i].name, rows[i].section, Some(rows[i].id))
  {
    forall x | x in rows && x.name == rows[i].name && x.section == rows[i].section
      ensures x.id == rows[i].id
    {
      var j :| 0 <= j < |rows| && rows[j] == x;
    }
  }

  class Requirements {
    var rows: seq<Requirement>

    ghost predicate Valid()
      reads this
    {
      UniqueRows(rows)
    }

    constructor ()
      ensures Valid() && rows == []
    {
      rows := [];
    }

    /** POST /: 400 for a pair already present; otherwise the schema's
        required name and section are checked and the new document (fresh
        ObjectId `id`, created at `now`) is stored. */
    method Create(name: string, section: Id, id: Id, now: int) returns (reply: Reply)
      requires Valid()
      modifies this
      ensures Valid()
      ensures PairTaken(old(rows), name, section, None) ==> reply == Refused(400, DuplicateMessage) && rows == old(rows)
      ensures !PairTaken(old(rows), name, section, None) && (name == "" || section == "") ==>
        reply.Failure? && reply.cause.ValidationError? && rows == old(rows)
      ensures reply.Success? <==> !PairTaken(old(rows), name, section, None) && name != "" && section != ""
                                  && forall x :: x in old(rows) ==> x.id != id
      ensures reply.Success? ==> reply.message == CreatedMessage && rows == old(rows) + [Requirement(id, name, section, now)]
      ensures !reply.Success? ==> rows == old(rows)
    {
      var i := 0;
      while i < |rows|
        invariant 0 <= i <= |rows|
        invariant forall k :: 0 <= k < i ==> !(rows[k].name == name && rows[k].section == section)
      {
        if rows[i].name == name && rows[i].section == section {
          return Refused(400, DuplicateMessage);
        }
        i := i + 1;
      }
      var failing := (if name == "" then ["name"] else []) + (if section == "" then ["section"] else []);
      if failing != [] {
        return Failure(ValidationError(failing));
      }
      var clash := IndexOfId(rows, IdOfRequirement, id);
      if clash.Some? {
        assert rows[clash.value] in rows && rows[clash.value].id == id;
        return Failure(DuplicateKey);
      }
      assert forall k :: 0 <= k < |rows| ==> IdOfRequirement(rows[k]) != id;
      rows := rows + [Requirement(id, name, section, now)];
      reply := Success(CreatedMessage);
    }

    /** GET /section/:sectionId: that section's requirements, newest first;
        404 when there are none. Nothing changes. */
    method BySection(section: Id) returns (status: int, found: seq<Requirement>)
      ensures found == NewestFirst(Where(rows, (r: Requirement) => r.section == section), RequirementCreatedAt)
      ensures NewestFirstOrdered(found, RequirementCreatedAt)
      ensures forall r :: r in found <==> r in rows && r.section == section
      ensures status == 404 <==> found == []
      ensures status != 404 ==> status == 200
    {
      var matching := Where(rows, (r: Requirement) => r.section == section);
      found := NewestFirst(matching, RequirementCreatedAt);
      NewestFirstIsOrdered(matching, RequirementCreatedAt);
      NewestFirstMembers(matching, RequirementCreatedAt);
      status := if |found| == 0 then 404 else 200;
    }

    /** GET /: every requirement, newest first. Nothing changes. */
    method ListAll() returns (all: seq<Requirement>)
      ensures all == NewestFirst(rows, RequirementCreatedAt)
      ensures NewestFirstOrdered(all, RequirementCreatedAt)
      ensures forall r :: r in all <==> r in rows
    {
      all := NewestFirst(rows, RequirementCreatedAt);
      NewestFirstIsOrdered(rows, RequirementCreatedAt);
      NewestFirstMembers(rows, RequirementCreatedAt);
    }

    /** GET /:id: the requirement with that id, or 404. Nothing changes. */
    method GetById(id: Id) returns (status: int, found: Option<Requirement>)
      ensures found.Some? ==> status == 200 && found.value in rows && found.value.id == id
      ensures found.None? <==> status == 404
      ensures found.None? <==> forall x :: x in rows ==> x.id != id
    {
      var at := IndexOfId(rows, IdOfRequirement, id);
      if at.None? {
        return 404, None;
      }
      status, found := 200, Some(rows[at.value]);
    }

    /** PUT /:id: the duplicate check, which ignores the record itself,
        comes first (400); then a missing id gives 404; otherwise both name
        and section are overwritten and nothing else in the table changes.
        findByIdAndUpdate runs no validators. */
    method Update(id: Id, name: string, section: Id) returns (reply: Reply)
      requires Valid()
      modifies this
      ensures Valid()
      ensures PairTaken(old(rows), name, section, Some(id)) ==> reply == Refused(400, DuplicateMessage) && rows == old(rows)
      ensures !PairTaken(old(rows), name, section, Some(id)) && IndexOfId(old(rows), IdOfRequirement, id).None? ==>
        reply == Refused(404, NotFoundMessage) && rows == old(rows)
      ensures !PairTaken(old(rows), name, section, Some(id)) && IndexOfId(old(rows), IdOfRequirement, id).Some? ==>
        var i := IndexOfId(old(rows), IdOfRequirement, id).value;
        reply == Success(UpdatedMessage) && rows == old(rows)[i := old(rows)[i].(name := name, section := section)]
    {
      var i := 0;
      while i < |rows|
        invariant 0 <= i <= |rows|
        invariant forall k :: 0 <= k < i ==> !(rows[k].name == name && rows[k].section == section && rows[k].id != id)
      {
        if rows[i].name == name && rows[i].section == section && rows[i].id != id {
          return Refused(400, DuplicateMessage);
        }
        i := i + 1;
      }
      var at := IndexOfId(rows, IdOfRequirement, id);
      if at.None? {
        return Refused(404, NotFoundMessage);
      }
      var k := at.value;
      ghost var before := rows;
      rows := rows[k := rows[k].(name := name, section := section)];
      UpdateKeepsUnique(before, k, name, section);
      reply := Success(UpdatedMessage);
    }

    /** DELETE /:id: removes exactly the identified record, 404 when it is
        absent. No other collection is touched. */
    method Delete(id: Id) returns (reply: Reply)
      requires Valid()
      modifies this
      ensures Valid()
      ensures IndexOfId(old(rows), IdOfRequirement, id).None? ==> reply == Refused(404, NotFoundMessage) && rows == old(rows)
      ensures IndexOfId(old(rows), IdOfRequirement, id).Some? ==>
        var i := IndexOfId(old(rows), IdOfRequirement, id).value;
        reply == Success(DeletedMessage) && rows == old(rows)[..i] + old(rows)[i + 1..]
      ensures forall x :: x in rows <==> x in old(rows) && x.id != id
    {
      var at := IndexOfId(rows, IdOfRequirement, id);
      if at.None? {
        return Refused(404, NotFoundMessage);
      }
      var k := at.value;
      ghost var before := rows;
      rows := rows[..k] + rows[k + 1..];
      RemoveKeepsUnique(before, k);
      reply := Success(DeletedMessage);
    }
  }

  /** Overwriting the pair of row k with one no other row holds keeps the
      table unique. */
  lemma UpdateKeepsUnique(rows: seq<Requirement>, k: nat, name: string, section: Id)
    requires UniqueRows(rows) && k < |rows|
    requires forall j :: 0 <= j < |rows| ==> !(rows[j].name == name && rows[j].section == section && rows[j].id != rows[k].id)
    ensures UniqueRows(rows[k := rows[k].(name := name, section := section)])
  {
    var t := rows[k := rows[k].(name := name, section := section)];
    forall i, j | 0 <= i < j < |t| ensures (t[i].name, t[i].section) != (t[j].name, t[j].section) {
      if i == k {
        assert rows[j].id != rows[k].id;
      } else if j == k {
        assert rows[i].id != rows[k].id;
      }
    }
  }

  /** Removing one row keeps the table unique, and the rows left are the
      others. */
  lemma RemoveKeepsUnique(rows: seq<Requirement>, k: nat)
    requires UniqueRows(rows) && k < |rows|
    ensures UniqueRows(rows[..k] + rows[k + 1..])
    ensures forall x :: x in rows[..k] + rows[k + 1..] <==> x in rows && x.id != rows[k].id
  {
    var t := rows[..k] + rows[k + 1..];
    assert forall i :: 0 <= i < |t| ==> t[i] == rows[if i < k then i else i + 1];
    forall x ensures x in t <==> x in rows && x.id != rows[k].id {
      if x in rows && x.id != rows[k].id {
        var j :| 0 <= j < |rows| && rows[j] == x;
        assert j != k;
        assert t[if j < k then j else j - 1] == x;
      }
    }
  }
}
