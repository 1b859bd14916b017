/** The four stored entities (main/models) as values, and the
    `sort({ createdAt: -1 })` ordering every listing uses. */
module Records {
  import opened Wrappers

  /** A document identity (the hexadecimal text of an ObjectId). */
  type Id = string

  /** An Inquiry document. `inquiryId` is the sequential display id; the
      stored `status` is text (the schema declares it a String), absent
      when null or undefined; `rating` is absent when unset. */
  datatype Inquiry = Inquiry(
    id: Id,
    inquiryId: Option<string>,
    firstName: string,
    lastName: string,
    nic: string,
    requirement: Id,
    rating: Option<real>,
    assignee: Option<Id>,
    acknowledgement: Option<string>,
    notes: Option<string>,
    status: Option<string>,
    createdAt: int)

  /** A Requirement document: a named service category of one section. */
  datatype Requirement = Requirement(id: Id, name: string, section: Id, createdAt: int)

  /** A Section document: `sectionId` is the human-readable section code. */
  datatype Section = Section(id: Id, sectionId: string, name: string, createdAt: int)

  /** A User document; `password` holds the bcrypt hash. */
  datatype User = User(
    id: Id,
    firstName: string,
    lastName: string,
    userName: string,
    userRole: Option<string>,
    section: Option<Id>,
    referenceNo: string,
    password: string,
    profileImage: Option<string>)

  /** Why a save throws, so that the route's catch answers 500: a schema
      validator failed on the listed paths, or a unique index refused the
      document. */
  datatype Cause = ValidationError(paths: seq<string>) | DuplicateKey

  /** A route's answer: success (200) with its message, a refusal with the
      route's own status and message, or a thrown error caught as 500. */
  datatype Reply = Success(message: string) | Refused(status: int, message: string) | Failure(cause: Cause)

  function StatusCode(r: Reply): (code: int)
    ensures r.Success? ==> code == 200
    ensures r.Failure? ==> code == 500
  {
    match r
    case Success(_) => 200
    case Refused(status, _) => status
    case Failure(_) => 500
  }

  function IdOfRequirement(r: Requirement): Id { r.id }
  function IdOfSection(r: Section): Id { r.id }
  function IdOfUser(r: User): Id { r.id }

  /** findById over a collection: the position of the document whose _id
      is id, or None when no document has it. */
  function IndexOfId<T>(rows: seq<T>, idOf: T -> Id, id: Id): (r: Option<nat>)
    ensures r.Some? ==> r.value < |rows| && idOf(rows[r.value]) == id
    ensures r.None? ==> forall x :: x in rows ==> idOf(x) != id
    ensures r.None? ==> forall k :: 0 <= k < |rows| ==> idOf(rows[k]) != id
  {
    if rows == [] then None
    else if idOf(rows[0]) == id then Some(0)
    else match IndexOfId(rows[1..], idOf, id)
      case None => None
      case Some(k) => Some(k + 1)
  }

  /** The document findById returns, if any. */
  function FindById<T>(rows: seq<T>, idOf: T -> Id, id: Id): (r: Option<T>)
    ensures r.Some? ==> r.value in rows && idOf(r.value) == id
    ensures r.None? ==> forall x :: x in rows ==> idOf(x) != id
  {
    match IndexOfId(rows, idOf, id)
    case None => None
    case Some(k) => Some(rows[k])
  }

  function InquiryCreatedAt(r: Inquiry): int { r.createdAt }
  function RequirementCreatedAt(r: Requirement): int { r.createdAt }

  /** s is ordered by the key, largest (newest) first. */
  predicate NewestFirstOrdered<T>(s: seq<T>, key: T -> int) {
    forall i, j :: 0 <= i < j < |s| ==> key(s[i]) >= key(s[j])
  }

  /** x placed into a newest-first sequence ahead of every element that is
      not newer than it. */
  function Insert<T>(x: T, s: seq<T>, key: T -> int): seq<T> {
    if s == [] || key(x) >= key(s[0]) then [x] + s
    else [s[0]] + Insert(x, s[1..], key)
  }

  /** s sorted newest first by the key (among equal keys, the order of s is
      kept; the database promises no particular tie order). */
  function NewestFirst<T>(s: seq<T>, key: T -> int): seq<T> {
    if s == [] then [] else Insert(s[0], NewestFirst(s[1..], key), key)
  }

  /** An element no older than the head of an ordered sequence can go in
      front of it. */
  lemma ConsKeepsOrder<T>(a: T, t: seq<T>, key: T -> int)
    requires NewestFirstOrdered(t, key)
    requires t == [] || key(a) >= key(t[0])
    ensures NewestFirstOrdered([a] + t, key)
  {
    var u := [a] + t;
    forall i, j | 0 <= i < j < |u| ensures key(u[i]) >= key(u[j]) {
      if i == 0 && j > 1 {
        assert u[j] == t[j - 1];
        assert key(t[0]) >= key(t[j - 1]);
      } else if i > 0 {
        assert u[i] == t[i - 1] && u[j] == t[j - 1];
      }
    }
  }

  /** Insert adds exactly one element, and the new head is x or the old
      head. */
  lemma {:induction false} InsertCounts<T>(x: T, s: seq<T>, key: T -> int)
    ensures multiset(Insert(x, s, key)) == multiset(s) + multiset{x}
    ensures |Insert(x, s, key)| == |s| + 1
    ensures s != [] ==> Insert(x, s, key)[0] == x || Insert(x, s, key)[0] == s[0]
  {
    if s != [] && key(x) < key(s[0]) {
      InsertCounts(x, s[1..], key);
      assert s == [s[0]] + s[1..];
    }
  }

  lemma {:induction false} InsertKeepsOrder<T>(x: T, s: seq<T>, key: T -> int)
    requires NewestFirstOrdered(s, key)
    ensures NewestFirstOrdered(Insert(x, s, key), key)
    ensures multiset(Insert(x, s, key)) == multiset(s) + multiset{x}
    ensures |Insert(x, s, key)| == |s| + 1
    ensures s != [] ==> Insert(x, s, key)[0] == x || Insert(x, s, key)[0] == s[0]
  {
    InsertCounts(x, s, key);
    if s == [] || key(x) >= key(s[0]) {
      ConsKeepsOrder(x, s, key);
    } else {
      var t := Insert(x, s[1..], key);
      assert NewestFirstOrdered(s[1..], key) by {
        forall i, j | 0 <= i < j < |s| - 1 ensures key(s[1..][i]) >= key(s[1..][j]) {
          assert s[1..][i] == s[i + 1] && s[1..][j] == s[j + 1];
        }
      }
      InsertKeepsOrder(x, s[1..], key);
      InsertCounts(x, s[1..], key);
      assert s[1..] != [] ==> key(s[0]) >= key(s[1..][0]) by {
        if s[1..] != [] { assert s[1..][0] == s[1]; }
      }
      ConsKeepsOrder(s[0], t, key);
    }
  }

  /** NewestFirst orders its input newest first. */
  lemma {:induction false} NewestFirstIsOrdered<T>(s: seq<T>, key: T -> int)
    ensures NewestFirstOrdered(NewestFirst(s, key), key)
    ensures multiset(NewestFirst(s, key)) == multiset(s)
    ensures |NewestFirst(s, key)| == |s|
  {
    if s != [] {
      NewestFirstIsOrdered(s[1..], key);
      InsertKeepsOrder(s[0], NewestFirst(s[1..], key), key);
      assert s == [s[0]] + s[1..];
    }
  }

  /** NewestFirst neither loses nor invents records: it is a permutation. */
  lemma NewestFirstMembers<T>(s: seq<T>, key: T -> int)
    ensures forall x :: x in NewestFirst(s, key) <==> x in s
  {
    NewestFirstIsOrdered(s, key);
    forall x ensures x in NewestFirst(s, key) <==> x in s {
      assert x in NewestFirst(s, key) <==> x in multiset(NewestFirst(s, key));
      assert x in s <==> x in multiset(s);
    }
  }

  /** The record first in creation order (the newest one), if any. */
  function Newest<T>(s: seq<T>, key: T -> int): (r: Option<T>)
    ensures r.None? <==> s == []
    ensures r.Some? ==> r.value in s
    ensures r.Some? ==> forall x :: x in s ==> key(x) <= key(r.value)
  {
    NewestFirstIsOrdered(s, key);
    NewestFirstMembers(s, key);
    var sorted := NewestFirst(s, key);
    if sorted == [] then None
    else
      assert forall x :: x in s ==> key(x) <= key(sorted[0]) by {
        forall x | x in s ensures key(x) <= key(sorted[0]) {
          assert x in sorted;
          var j :| 0 <= j < |sorted| && sorted[j] == x;
          assert j == 0 || key(sorted[0]) >= key(sorted[j]);
        }
      }
      assert sorted[0] in multiset(sorted);
      assert sorted[0] in s;
      Some(sorted[0])
  }

  /** The elements of s that satisfy p, in their order in s (a query's
      filter, the JavaScript Array.prototype.filter). */
  function Where<T>(s: seq<T>, p: T -> bool): (r: seq<T>)
    ensures |r| <= |s|
    ensures forall x :: x in r ==> x in s && p(x)
    ensures forall x :: x in s && p(x) ==> x in r
    ensures forall i :: 0 <= i < |r| ==> p(r[i])
  {
    if s == [] then [] else (if p(s[0]) then [s[0]] else []) + Where(s[1..], p)
  }

  /** Two filters that agree on every element keep the same elements. */
  lemma {:induction false} WhereAgrees<T>(s: seq<T>, p: T -> bool, q: T -> bool)
    requires forall x :: x in s ==> (p(x) <==> q(x))
    ensures Where(s, p) == Where(s, q)
  {
    if s != [] {
      assert s[0] in s;
      assert forall x :: x in s[1..] ==> x in s;
      WhereAgrees(s[1..], p, q);
    }
  }

  /** Filtering twice is filtering once by both conditions. */
  lemma {:induction false} WhereWhere<T>(s: seq<T>, p: T -> bool, q: T -> bool, both: T -> bool)
    requires forall x :: both(x) <==> p(x) && q(x)
    ensures Where(Where(s, p), q) == Where(s, both)
  {
    if s != [] {
      WhereWhere(s[1..], p, q, both);
      var head := if p(s[0]) then [s[0]] else [];
      assert Where(s, p) == head + Where(s[1..], p);
      if p(s[0]) {
        assert Where(s, p)[0] == s[0];
        assert Where(s, p)[1..] == Where(s[1..], p);
      } else {
        assert Where(s, p) == Where(s[1..], p);
      }
    }
  }

  /** Filtering keeps a newest-first order. */
  lemma {:induction false} WhereKeepsOrder<T>(s: seq<T>, p: T -> bool, key: T -> int)
    requires NewestFirstOrdered(s, key)
    ensures NewestFirstOrdered(Where(s, p), key)
  {
    if s != [] {
      assert NewestFirstOrdered(s[1..], key) by {
        forall i, j | 0 <= i < j < |s| - 1 ensures key(s[1..][i]) >= key(s[1..][j]) {
          assert s[1..][i] == s[i + 1] && s[1..][j] == s[j + 1];
        }
      }
      WhereKeepsOrder(s[1..], p, key);
      var rest := Where(s[1..], p);
      if p(s[0]) {
        assert rest == [] || key(s[0]) >= key(rest[0]) by {
          if rest != [] {
            assert rest[0] in s[1..];
            var k :| 0 <= k < |s[1..]| && s[1..][k] == rest[0];
            assert s[k + 1] == rest[0];
          }
        }
        ConsKeepsOrder(s[0], rest, key);
      }
    }
  }

  /** A contiguous slice of a newest-first sequence is newest first. */
  lemma SliceKeepsOrder<T>(s: seq<T>, a: nat, b: nat, key: T -> int)
    requires NewestFirstOrdered(s, key)
    requires a <= b <= |s|
    ensures NewestFirstOrdered(s[a..b], key)
  {
    forall i, j | 0 <= i < j < b - a ensures key(s[a..b][i]) >= key(s[a..b][j]) {
      assert s[a..b][i] == s[a + i] && s[a..b][j] == s[a + j];
    }
  }
}
