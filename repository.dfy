/**
 * The `users` table and the two queries `UserRepository` declares, plus the
 * writes the service relies on (`save`, the flush of a managed entity,
 * `deleteById`). The queries are pure functions of the table; the table
 * itself lives in the `UserStore` object, whose methods change it.
 */
module Repository {
  import opened Wrappers
  import opened Dates
  import opened Constraints
  import opened Entity
  import opened Errors

  type Table = map<Id, User>

  /** Every row carries its own key as id. */
  predicate IdsMatchKeys(t: Table) {
    forall k :: k in t ==> t[k].id == Some(k)
  }

  /** The `users_email_key` unique constraint: an email names at most one row. */
  predicate UniqueEmails(t: Table)
    ensures t == map[] ==> UniqueEmails(t)
    ensures UniqueEmails(t) <==> forall j, k :: j in t && k in t && t[j].email == t[k].email ==> j == k
  {
    forall j, k :: j in t && k in t && j != k ==> t[j].email != t[k].email
  }

  /** What the table keeps at all times: keys, the unique email, and the clock-independent field constraints. */
  predicate IsTableValid(t: Table, isEmail: string -> bool)
    ensures t == map[] ==> IsTableValid(t, isEmail)
    ensures IsTableValid(t, isEmail) ==> forall k :: k in t ==> t[k].id == Some(k) && t[k].email.Some? && isEmail(t[k].email.value)
  {
    && IdsMatchKeys(t)
    && UniqueEmails(t)
    && forall k :: k in t ==> IsStorable(t[k], isEmail)
  }

  predicate IsSorted(ids: seq<Id>) {
    forall i, j :: 0 <= i < j < |ids| ==> ids[i] < ids[j]
  }

  /** A non-empty set of keys has a least element. */
  lemma {:induction false} LeastKey(s: set<Id>) returns (m: Id)
    requires s != {}
    ensures m in s && forall x :: x in s ==> m <= x
  {
    var y :| y in s;
    if s == {y} {
      m := y;
    } else {
      var m' := LeastKey(s - {y});
      m := if y < m' then y else m';
      forall x | x in s
        ensures m <= x
      {
        if x != y {
          assert x in s - {y};
        }
      }
    }
  }

  lemma MinimumExists(s: set<Id>)
    requires s != {}
    ensures exists m :: m in s && forall x :: x in s ==> m <= x
  {
    var m := LeastKey(s);
  }

  /** Putting a key smaller than all others in front keeps a sequence sorted. */
  lemma PrependSorted(a: Id, rest: seq<Id>)
    ensures IsSorted(rest) && (forall k :: k in rest ==> a < k) ==> IsSorted([a] + rest)
  {
    if !IsSorted(rest) || exists k :: k in rest && a >= k {
      return;
    }
    var r := [a] + rest;
    forall i, j | 0 <= i < j < |r|
      ensures r[i] < r[j]
    {
      assert r[j] == rest[j - 1];
      if i > 0 {
        assert r[i] == rest[i - 1];
      } else {
        assert rest[j - 1] in rest;
      }
    }
  }

  /**
   * The keys in ascending order. The queries return rows in this order; the
   * database leaves the order open, so this is one admissible choice.
   */
  function SortedIds(s: set<Id>): (r: seq<Id>)
    ensures forall x :: x in r <==> x in s
    ensures IsSorted(r)
    decreases s
  {
    if s == {} then []
    else
      var m := Least(s);
      var rest := SortedIds(s - {m});
      assert forall k :: k in rest ==> m < k by {
        forall k | k in rest ensures m < k {
          assert k in s && k != m;
        }
      }
      PrependSorted(m, rest);
      assert forall x :: x in [m] + rest <==> x == m || x in rest;
      [m] + rest
  }

  /** The least key of a non-empty set. */
  function Least(s: set<Id>): (m: Id)
    requires s != {}
    ensures m in s && forall x :: x in s ==> m <= x
  {
    MinimumExists(s);
    var m :| m in s && forall x :: x in s ==> m <= x;
    m
  }

  /** A key no row uses, standing for the UUID the persistence layer generates. */
  function FreshId(keys: set<Id>): (id: Id)
    ensures id !in keys
  {
    var ids := SortedIds(keys);
    if ids == [] then 0
    else
      assert forall x :: x in keys ==> x <= ids[|ids| - 1] by {
        forall x | x in keys ensures x <= ids[|ids| - 1] {
          var i :| 0 <= i < |ids| && ids[i] == x;
          assert i == |ids| - 1 || ids[i] < ids[|ids| - 1];
        }
      }
      ids[|ids| - 1] + 1
  }

  /** The rows of `ids`, in that order. */
  function Rows(t: Table, ids: seq<Id>): (r: seq<User>)
    requires forall i :: 0 <= i < |ids| ==> ids[i] in t
    ensures |r| == |ids|
    ensures forall i :: 0 <= i < |ids| ==> r[i] == t[ids[i]]
  {
    seq(|ids|, i requires 0 <= i < |ids| => t[ids[i]])
  }

  // ---------------------------------------------------------------------------
  // select u from User u where u.email = :email

  function FirstWithEmail(t: Table, ids: seq<Id>, email: string): (r: Option<User>)
    requires forall i :: 0 <= i < |ids| ==> ids[i] in t
    ensures r.Some? ==> r.value in t.Values && r.value.email == Some(email)
    ensures r.None? <==> forall i :: 0 <= i < |ids| ==> t[ids[i]].email != Some(email)
  {
    if ids == [] then None
    else if t[ids[0]].email == Some(email) then Some(t[ids[0]])
    else
      var r := FirstWithEmail(t, ids[1..], email);
      assert r.None? ==> forall i :: 0 <= i < |ids| ==> t[ids[i]].email != Some(email) by {
        if r.None? {
          forall i | 0 <= i < |ids| ensures t[ids[i]].email != Some(email) {
            if i > 0 { assert ids[i] == ids[1..][i - 1]; }
          }
        }
      }
      r
  }

  /** `findByEmail(email)`: the row whose email equals `email`, if any. */
  function FindByEmail(t: Table, email: string): (r: Option<User>)
    ensures r.Some? ==> r.value in t.Values && r.value.email == Some(email)
    ensures r.None? <==> forall k :: k in t ==> t[k].email != Some(email)
  {
    var ids := SortedIds(t.Keys);
    var r := FirstWithEmail(t, ids, email);
    assert r.None? ==> forall k :: k in t ==> t[k].email != Some(email) by {
      if r.None? {
        forall k | k in t ensures t[k].email != Some(email) {
          var i :| 0 <= i < |ids| && ids[i] == k;
        }
      }
    }
    r
  }

  /** Under the unique constraint, the row found is the one that owns the address. */
  lemma FindByEmailFindsTheOwner(t: Table, k: Id)
    requires UniqueEmails(t)
    requires k in t && t[k].email.Some?
    ensures FindByEmail(t, t[k].email.value) == Some(t[k])
  {
    var r := FindByEmail(t, t[k].email.value);
    var j :| j in t && t[j] == r.value;
    assert j == k;
  }

  // ---------------------------------------------------------------------------
  // select u from User u where u.birthDate >= :from and u.birthDate <= :to

  /** The where clause: a birth date inside `[from, to]`, both ends included; a null date never matches. */
  predicate BornBetween(u: User, from: LocalDate, to: LocalDate)
    ensures BornBetween(u, from, to) ==> u.birthDate.Some? && !IsAfter(from, to)
  {
    u.birthDate.Some? && !IsBefore(u.birthDate.value, from) && !IsAfter(u.birthDate.value, to)
  }

  /** The keys of `ids` whose row matches, in the order of `ids`. */
  function Matching(t: Table, ids: seq<Id>, from: LocalDate, to: LocalDate): (r: seq<Id>)
    requires forall i :: 0 <= i < |ids| ==> ids[i] in t
    ensures forall k :: k in r <==> k in ids && k in t && BornBetween(t[k], from, to)
    ensures IsSorted(ids) ==> IsSorted(r)
  {
    if ids == [] then []
    else
      var rest := Matching(t, ids[1..], from, to);
      assert forall k :: k in ids <==> k == ids[0] || k in ids[1..];
      assert IsSorted(ids) ==> forall k :: k in rest ==> ids[0] < k by {
        if IsSorted(ids) {
          forall k | k in rest ensures ids[0] < k {
            var i :| 0 <= i < |ids[1..]| && ids[1..][i] == k;
            assert ids[i + 1] == k;
          }
        }
      }
      if BornBetween(t[ids[0]], from, to) then
        PrependSorted(ids[0], rest);
        [ids[0]] + rest
      else rest
  }

  /** Every matching key, each once, in ascending order. */
  function MatchingIds(t: Table, from: LocalDate, to: LocalDate): (r: seq<Id>)
    ensures forall k :: k in r <==> k in t && BornBetween(t[k], from, to)
    ensures IsSorted(r)
  {
    Matching(t, SortedIds(t.Keys), from, to)
  }

  /** The slice that page `pageIndex` of size `pageSize` selects. */
  function Page<T>(xs: seq<T>, pageIndex: nat, pageSize: nat): (r: seq<T>)
    ensures |r| <= pageSize
    ensures forall i :: 0 <= i < |r| ==> pageIndex * pageSize + i < |xs| && r[i] == xs[pageIndex * pageSize + i]
  {
    var lo := if pageIndex * pageSize < |xs| then pageIndex * pageSize else |xs|;
    var hi := if lo + pageSize < |xs| then lo + pageSize else |xs|;
    xs[lo..hi]
  }

  /** `getAllByBirthDateRange(from, to, PageRequest.of(pageIndex, pageSize))`. */
  function GetAllByBirthDateRange(t: Table, from: LocalDate, to: LocalDate, pageIndex: nat, pageSize: nat): (r: seq<User>)
    ensures |r| <= pageSize
    ensures forall u :: u in r ==> u in t.Values && BornBetween(u, from, to)
  {
    var ids := Page(MatchingIds(t, from, to), pageIndex, pageSize);
    assert forall i :: 0 <= i < |ids| ==> ids[i] in MatchingIds(t, from, to);
    Rows(t, ids)
  }

  /** Page `q` holds the element at offset `q * pageSize + pos` at position `pos`: paging loses nothing. */
  lemma PageHoldsElement<T>(xs: seq<T>, pageSize: nat, q: nat, pos: nat)
    requires pos < pageSize && q * pageSize + pos < |xs|
    ensures pos < |Page(xs, q, pageSize)|
    ensures Page(xs, q, pageSize)[pos] == xs[q * pageSize + pos]
  {
  }

  /** Splits an offset into a page number and a position on that page. */
  lemma PageOf(i: nat, pageSize: nat) returns (q: nat, pos: nat)
    requires pageSize >= 1
    ensures pos < pageSize && q * pageSize + pos == i
  {
    q, pos := i / pageSize, i % pageSize;
  }

  /**
   * Every stored user born inside the range is on some page of the query.
   * This rests on the model's fixed ascending-key order, the same for every
   * page; the query itself promises no order.
   */
  lemma EveryMatchIsOnSomePage(t: Table, from: LocalDate, to: LocalDate, pageSize: nat, k: Id)
    requires pageSize >= 1
    requires k in t && BornBetween(t[k], from, to)
    ensures exists pageIndex: nat :: t[k] in GetAllByBirthDateRange(t, from, to, pageIndex, pageSize)
  {
    var xs := MatchingIds(t, from, to);
    var i :| 0 <= i < |xs| && xs[i] == k;
    var q, pos := PageOf(i, pageSize);
    PageHoldsElement(xs, pageSize, q, pos);
    var page := Page(xs, q, pageSize);
    assert forall j :: 0 <= j < |page| ==> page[j] in xs;
    var r := GetAllByBirthDateRange(t, from, to, q, pageSize);
    assert r == Rows(t, page);
    assert r[pos] == t[k];
  }

  /** On an empty table every page is empty. */
  lemma EmptyTableGivesEmptyPage(from: LocalDate, to: LocalDate, pageIndex: nat, pageSize: nat)
    ensures GetAllByBirthDateRange(map[], from, to, pageIndex, pageSize) == []
  {
  }

  /** The five users of the repository test, born in January, February, March, May and June 2000. */
  function FiveUsers(): (t: Table)
    ensures IdsMatchKeys(t) && |t.Keys| == 5
  {
    var u := SampleUser(0);
    map[1 := u.(id := Some(1), email := Some("email1@gmail.com"), birthDate := Some(Date(2000, 1, 1))),
        2 := u.(id := Some(2), email := Some("email2@gmail.com"), birthDate := Some(Date(2000, 2, 1))),
        3 := u.(id := Some(3), email := Some("email3@gmail.com"), birthDate := Some(Date(2000, 3, 1))),
        4 := u.(id := Some(4), email := Some("email4@gmail.com"), birthDate := Some(Date(2000, 5, 1))),
        5 := u.(id := Some(5), email := Some("email5@gmail.com"), birthDate := Some(Date(2000, 6, 1)))]
  }

  /** Queried with [2000-02-01, 2000-05-01], they yield exactly the middle three. */
  lemma RangeQueryExample()
    ensures MatchingIds(FiveUsers(), Date(2000, 2, 1), Date(2000, 5, 1)) == [2, 3, 4]
  {
    var t := FiveUsers();
    var from, to := Date(2000, 2, 1), Date(2000, 5, 1);
    assert t.Keys == {1, 2, 3, 4, 5};
    assert BornBetween(t[2], from, to) && BornBetween(t[3], from, to) && BornBetween(t[4], from, to);
    assert !BornBetween(t[1], from, to) && !BornBetween(t[5], from, to);
    MiddleThree(t, from, to);
  }

  /** Keys 1 to 5 of which exactly 2, 3 and 4 match: the query lists those three, in key order. */
  lemma MiddleThree(t: Table, from: LocalDate, to: LocalDate)
    requires t.Keys == {1, 2, 3, 4, 5}
    requires BornBetween(t[2], from, to) && BornBetween(t[3], from, to) && BornBetween(t[4], from, to)
    requires !BornBetween(t[1], from, to) && !BornBetween(t[5], from, to)
    ensures MatchingIds(t, from, to) == [2, 3, 4]
  {
    var r := MatchingIds(t, from, to);
    forall k ensures k in r <==> k == 2 || k == 3 || k == 4 {
      assert k in r <==> k in t && BornBetween(t[k], from, to);
    }
    SortedOfThree(r, 2, 3, 4);
  }

  /** A sorted sequence of exactly three distinct known elements is those three in order. */
  lemma SortedOfThree(r: seq<Id>, a: Id, b: Id, c: Id)
    requires a < b < c
    requires IsSorted(r)
    requires forall k :: k in r <==> k == a || k == b || k == c
    ensures r == [a, b, c]
  {
    assert a in r && b in r && c in r;
    var ia :| 0 <= ia < |r| && r[ia] == a;
    var ib :| 0 <= ib < |r| && r[ib] == b;
    var ic :| 0 <= ic < |r| && r[ic] == c;
    assert ia < ib < ic;
    var last := |r| - 1;
    assert r[0] in r && r[last] in r;
    assert ia == 0 by {
      if ia > 0 { assert false; }
    }
    assert ic == last by {
      if ic < last { assert false; }
    }
    assert r[1] in r;
    assert ib == 1 by {
      if ib > 1 { assert false; }
    }
    assert r[2] in r;
  }

  // ---------------------------------------------------------------------------
  // Writes

  /** `save` of a new entity: validation before the insert, a generated key, and the unique email at commit. */
  function InsertOutcome(t: Table, u: User, today: LocalDate, isEmail: string -> bool): (out: (Result<User, ServiceError>, Table))
    ensures out.0.Ok? ==> out.0.value.id.Some?
    ensures out.0 == Err(CommitFailed(Violations(u, isEmail, today))) <==> !IsValidUser(u, isEmail, today)
    ensures IsValidUser(u, isEmail, today) && out.0.Err? ==> out.0 == Err(DataIntegrityViolation)
  {
    var violations := Violations(u, isEmail, today);
    if violations != {} then (Err(CommitFailed(violations)), t)
    else if FindByEmail(t, u.email.value).Some? then (Err(DataIntegrityViolation), t)
    else
      var id := FreshId(t.Keys);
      (Ok(u.(id := Some(id))), t[id := u.(id := Some(id))])
  }

  /** An insert either adds exactly one row, under a new key, with the given fields; or fails and changes nothing. */
  lemma InsertAddsOneRow(t: Table, u: User, today: LocalDate, isEmail: string -> bool)
    requires IsTableValid(t, isEmail)
    requires u.id.None?
    ensures var (r, t') := InsertOutcome(t, u, today, isEmail);
      && IsTableValid(t', isEmail)
      && (r.Err? ==> t' == t)
      && (r.Ok? ==> && r.value.id.Some? && r.value.id.value !in t
                    && r.value == u.(id := r.value.id)
                    && t' == t[r.value.id.value := r.value]
                    && IsValidUser(r.value, isEmail, today))
      && (r.Ok? <==> IsValidUser(u, isEmail, today) && forall k :: k in t ==> t[k].email != u.email)
      && (!IsValidUser(u, isEmail, today) ==> r == Err(CommitFailed(Violations(u, isEmail, today))))
      && (IsValidUser(u, isEmail, today) && r.Err? ==> r == Err(DataIntegrityViolation))
  {
  }

  /**
   * The flush of the managed row `k` at commit: nothing is written unless it
   * changed; otherwise the entity is validated and the unique email enforced.
   */
  function FlushOutcome(t: Table, k: Id, u: User, today: LocalDate, isEmail: string -> bool): (out: (Result<(), ServiceError>, Table))
    requires k in t
    ensures out.0.Err? ==> out.1 == t
    ensures out.1.Keys == t.Keys
    ensures forall j :: j in t && j != k ==> out.1[j] == t[j]
    ensures out.0.Ok? ==> out.1[k] == u
  {
    if u == t[k] then (Ok(()), t)
    else
      var violations := Violations(u, isEmail, today);
      if violations != {} then (Err(CommitFailed(violations)), t)
      else if exists j :: j in t && j != k && t[j].email == u.email then (Err(DataIntegrityViolation), t)
      else (Ok(()), t[k := u])
  }

  /** A flush writes the one row or nothing, and keeps the table valid. */
  lemma FlushWritesOneRow(t: Table, k: Id, u: User, today: LocalDate, isEmail: string -> bool)
    requires IsTableValid(t, isEmail)
    requires k in t && u.id == Some(k)
    ensures var (r, t') := FlushOutcome(t, k, u, today, isEmail);
      && IsTableValid(t', isEmail)
      && (r.Err? ==> t' == t)
      && (r.Ok? ==> t' == t[k := u])
      && (r.Ok? <==> u == t[k] || (IsValidUser(u, isEmail, today) && forall j :: j in t && j != k ==> t[j].email != u.email))
  {
  }

  class UserStore {
    var table: Table
    /** The `@Email` grammar of the validator the persistence layer uses. */
    const isEmail: string -> bool

    ghost predicate Valid()
      reads this
    {
      IsTableValid(table, isEmail)
    }

    constructor (isEmail: string -> bool)
      ensures Valid()
      ensures table == map[] && this.isEmail == isEmail
    {
      table := map[];
      this.isEmail := isEmail;
    }

    /** `save(user)` for a user without an id. */
    method Save(u: User, today: LocalDate) returns (r: Result<User, ServiceError>)
      requires Valid()
      requires u.id.None?
      modifies this
      ensures Valid()
      ensures (r, table) == InsertOutcome(old(table), u, today, isEmail)
    {
      InsertAddsOneRow(table, u, today, isEmail);
      var violations := Violations(u, isEmail, today);
      if violations != {} {
        return Err(CommitFailed(violations));
      }
      if FindByEmail(table, u.email.value).Some? {
        return Err(DataIntegrityViolation);
      }
      var id := FreshId(table.Keys);
      var saved := u.(id := Some(id));
      table := table[id := saved];
      r := Ok(saved);
    }

    /** The write-back of row `k`, loaded and modified inside the current transaction. */
    method Flush(k: Id, u: User, today: LocalDate) returns (r: Result<(), ServiceError>)
      requires Valid()
      requires k in table && u.id == Some(k)
      modifies this
      ensures Valid()
      ensures (r, table) == FlushOutcome(old(table), k, u, today, isEmail)
    {
      FlushWritesOneRow(table, k, u, today, isEmail);
      if u == table[k] {
        return Ok(());
      }
      var violations := Violations(u, isEmail, today);
      if violations != {} {
        return Err(CommitFailed(violations));
      }
      if exists j :: j in table && j != k && table[j].email == u.email {
        return Err(DataIntegrityViolation);
      }
      table := table[k := u];
      r := Ok(());
    }

    /** `deleteById(id)`: removes the row if there is one, and is silent otherwise. */
    method DeleteById(id: Id)
      requires Valid()
      modifies this
      ensures Valid()
      ensures table == old(table) - {id}
    {
      table := table - {id};
    }
  }
}
