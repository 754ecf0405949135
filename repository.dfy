/**
 * The Spring Data repository for Task: the `tasks` table as a map from the
 * Long primary key to a row, the inherited id-keyed CRUD, and the meaning
 * of the three derived query methods.
 */
module Repository {
  import opened Wrappers
  import opened Entity

  /** The `tasks` table, keyed by primary key. */
  type Table = map<int, TaskRow>

  /** Every row carries the key it is stored under. */
  predicate KeyedById(table: Table) {
    forall k :: k in table ==> table[k].id == Some(k)
  }

  predicate StrictlyIncreasing(s: seq<int>) {
    forall i, j :: 0 <= i < j < |s| ==> s[i] < s[j]
  }

  predicate IsLeast(m: int, keys: set<int>) {
    m in keys && forall k :: k in keys ==> m <= k
  }

  /** Some element of a non-empty set. */
  lemma PickElement<T>(s: set<T>) returns (x: T)
    requires s != {}
    ensures x in s
  {
    x :| x in s;
  }

  /** A non-empty finite set of keys has a least element. */
  lemma {:induction false} LeastKeyExists(keys: set<int>)
    requires keys != {}
    ensures exists m :: IsLeast(m, keys)
  {
    var x := PickElement(keys);
    if keys == {x} {
      assert IsLeast(x, keys);
    } else {
      var rest := keys - {x};
      LeastKeyExists(rest);
      var y :| IsLeast(y, rest);
      var m := if x < y then x else y;
      forall k | k in keys ensures m <= k {
        if k != x {
          assert k in rest;
        }
      }
      assert IsLeast(m, keys);
    }
  }

  function LeastKey(keys: set<int>): (m: int)
    requires keys != {}
    ensures IsLeast(m, keys)
  {
    LeastKeyExists(keys);
    var m :| IsLeast(m, keys);
    m
  }

  /** The keys in ascending order: the order in which the model lists rows. */
  function AscendingKeys(keys: set<int>): (r: seq<int>)
    ensures StrictlyIncreasing(r)
    ensures forall k :: k in r <==> k in keys
    ensures |r| == |keys|
    decreases keys
  {
    if keys == {} then []
    else
      var m := LeastKey(keys);
      [m] + AscendingKeys(keys - {m})
  }

  /** The keys of `ids` whose row satisfies `p`, in the order of `ids`. */
  function MatchingKeys(table: Table, ids: seq<int>, p: TaskRow -> bool): (r: seq<int>)
    requires forall k :: k in ids ==> k in table
    ensures forall k :: k in r <==> k in ids && p(table[k])
    ensures StrictlyIncreasing(ids) ==> StrictlyIncreasing(r)
  {
    if ids == [] then []
    else
      var rest := MatchingKeys(table, ids[1..], p);
      assert ids[0] in ids;
      assert StrictlyIncreasing(ids) ==> StrictlyIncreasing([ids[0]] + rest) by {
        if StrictlyIncreasing(ids) {
          var r := [ids[0]] + rest;
          forall i, j | 0 <= i < j < |r| ensures r[i] < r[j] {
            assert r[j] == rest[j - 1] && rest[j - 1] in rest;
            if i > 0 {
              assert r[i] == rest[i - 1];
            }
          }
        }
      }
      if p(table[ids[0]]) then [ids[0]] + rest else rest
  }

  /** The rows stored under `ids`, in that order. */
  function RowsAt(table: Table, ids: seq<int>): (r: seq<TaskRow>)
    requires forall i :: 0 <= i < |ids| ==> ids[i] in table
    ensures |r| == |ids| && forall i :: 0 <= i < |ids| ==> r[i] == table[ids[i]]
  {
    seq(|ids|, i requires 0 <= i < |ids| => table[ids[i]])
  }

  /** The rows satisfying `p`, in ascending key order. */
  function FindWhere(table: Table, p: TaskRow -> bool): seq<TaskRow> {
    var ids := AscendingKeys(table.Keys);
    RowsAt(table, MatchingKeys(table, ids, p))
  }

  /** A query returns exactly the stored rows satisfying its condition. */
  lemma FindWhereMembers(table: Table, p: TaskRow -> bool)
    ensures var r := FindWhere(table, p);
      forall t :: t in r <==> t in table.Values && p(t)
  {
    var all := AscendingKeys(table.Keys);
    var ids := MatchingKeys(table, all, p);
    var r := FindWhere(table, p);
    assert r == RowsAt(table, ids);
    forall t | t in r ensures t in table.Values && p(t) {
      var i :| 0 <= i < |r| && r[i] == t;
      assert ids[i] in ids;
    }
    forall t | t in table.Values && p(t) ensures t in r {
      var k :| k in table && table[k] == t;
      assert k in ids;
      var i :| 0 <= i < |ids| && ids[i] == k;
      assert r[i] == t;
    }
  }

  /** Each stored row occurs at most once in a query's result, in ascending id order. */
  lemma FindWhereAscending(table: Table, p: TaskRow -> bool)
    requires KeyedById(table)
    ensures var r := FindWhere(table, p);
      forall i, j :: 0 <= i < j < |r| ==> r[i].id.Some? && r[j].id.Some? && r[i].id.value < r[j].id.value
  {
    var all := AscendingKeys(table.Keys);
    var ids := MatchingKeys(table, all, p);
    var r := FindWhere(table, p);
    assert r == RowsAt(table, ids);
    forall i | 0 <= i < |r| ensures r[i].id == Some(ids[i]) {
      assert ids[i] in ids;
    }
  }

  /** findAll: every stored row, in ascending key order. */
  function FindAll(table: Table): (r: seq<TaskRow>)
    ensures |r| == |table|
    ensures forall t :: t in r <==> t in table.Values
  {
    var ids := AscendingKeys(table.Keys);
    var r := RowsAt(table, ids);
    assert forall t :: t in table.Values ==> t in r by {
      forall t | t in table.Values ensures t in r {
        var k :| k in table && table[k] == t;
        var i :| 0 <= i < |ids| && ids[i] == k;
        assert r[i] == t;
      }
    }
    r
  }

  /** findById: lookup. */
  function FindById(table: Table, id: int): Option<TaskRow> {
    if id in table then Some(table[id]) else None
  }

  /** existsById: membership. */
  predicate ExistsById(table: Table, id: int) {
    id in table
  }

  /** deleteById: removal. */
  function DeleteById(table: Table, id: int): Table {
    table - {id}
  }

  /** count: the number of rows. */
  function Count(table: Table): nat {
    |table|
  }

  /** The inherited CRUD agrees with itself as map membership, lookup, removal and size. */
  lemma CrudIsMapAccess(table: Table, id: int)
    ensures ExistsById(table, id) <==> FindById(table, id).Some?
    ensures !ExistsById(DeleteById(table, id), id)
    ensures forall k :: k != id ==> FindById(DeleteById(table, id), k) == FindById(table, k)
    ensures Count(DeleteById(table, id)) == if ExistsById(table, id) then Count(table) - 1 else Count(table)
  {
    assert DeleteById(table, id).Keys == table.Keys - {id};
  }

  /** findByStatus. */
  function FindByStatus(table: Table, s: TaskStatus): seq<TaskRow> {
    FindWhere(table, (t: TaskRow) => t.status == Some(s))
  }

  /** findByStatus returns exactly the stored tasks with that status, each once. */
  lemma FindByStatusExact(table: Table, s: TaskStatus)
    requires KeyedById(table)
    ensures var r := FindByStatus(table, s);
      && (forall t :: t in r <==> t in table.Values && t.status == Some(s))
      && (forall i, j :: 0 <= i < j < |r| ==> r[i].id.Some? && r[j].id.Some? && r[i].id.value < r[j].id.value)
  {
    FindWhereMembers(table, (t: TaskRow) => t.status == Some(s));
    FindWhereAscending(table, (t: TaskRow) => t.status == Some(s));
  }

  /** `a` may stand before `b` when ordering by createdAt descending; a missing createdAt sorts last. */
  predicate NotOlder(a: TaskRow, b: TaskRow) {
    b.createdAt.None? || (a.createdAt.Some? && a.createdAt.value >= b.createdAt.value)
  }

  predicate NewestFirst(s: seq<TaskRow>) {
    forall i, j :: 0 <= i < j < |s| ==> NotOlder(s[i], s[j])
  }

  /** Inserts `x` before the first row it is not older than. */
  function InsertByCreatedAt(x: TaskRow, s: seq<TaskRow>): (r: seq<TaskRow>)
    requires NewestFirst(s)
    ensures NewestFirst(r)
    ensures multiset(r) == multiset(s) + multiset{x}
  {
    if s == [] || NotOlder(x, s[0]) then
      [x] + s
    else
      var rest := InsertByCreatedAt(x, s[1..]);
      assert forall k :: 0 <= k < |rest| ==> NotOlder(s[0], rest[k]) by {
        forall k | 0 <= k < |rest| ensures NotOlder(s[0], rest[k]) {
          assert rest[k] in multiset(rest);
          if rest[k] != x {
            assert rest[k] in multiset(s[1..]);
            var j :| 0 <= j < |s[1..]| && s[1..][j] == rest[k];
            assert s[j + 1] == rest[k];
          }
        }
      }
      assert s == [s[0]] + s[1..];
      [s[0]] + rest
  }

  /** A stable insertion sort by createdAt, newest first. */
  function SortNewestFirst(s: seq<TaskRow>): (r: seq<TaskRow>)
    ensures NewestFirst(r)
    ensures multiset(r) == multiset(s)
  {
    if s == [] then []
    else
      assert s == [s[0]] + s[1..];
      InsertByCreatedAt(s[0], SortNewestFirst(s[1..]))
  }

  /** findByStatusOrderByCreatedAtDesc: the rows of findByStatus, newest first. */
  function FindByStatusOrderByCreatedAtDesc(table: Table, s: TaskStatus): (r: seq<TaskRow>)
    ensures multiset(r) == multiset(FindByStatus(table, s))
    ensures NewestFirst(r)
  {
    SortNewestFirst(FindByStatus(table, s))
  }

  /** The ordered query holds the same rows as findByStatus: the stored tasks with that status. */
  lemma OrderedByCreatedAtMembers(table: Table, s: TaskStatus)
    ensures forall t :: t in FindByStatusOrderByCreatedAtDesc(table, s) <==> t in table.Values && t.status == Some(s)
  {
    var r := FindByStatusOrderByCreatedAtDesc(table, s);
    FindWhereMembers(table, (t: TaskRow) => t.status == Some(s));
    forall t ensures t in r <==> t in FindByStatus(table, s) {
      assert t in r <==> t in multiset(r);
      assert t in FindByStatus(table, s) <==> t in multiset(FindByStatus(table, s));
    }
  }

  /** Every row carries a createdAt. */
  predicate AllStamped(s: seq<TaskRow>) {
    forall i :: 0 <= i < |s| ==> s[i].createdAt.Some?
  }

  /** Rows that all carry a createdAt, listed with createdAt non-increasing. */
  predicate CreatedAtDescending(s: seq<TaskRow>) {
    && AllStamped(s)
    && forall i, j :: 0 <= i < j < |s| ==> s[i].createdAt.value >= s[j].createdAt.value
  }

  /** On rows that all carry a createdAt, the sort order is plain descending order. */
  lemma StampedNewestFirst(s: seq<TaskRow>)
    requires AllStamped(s)
    ensures NewestFirst(s) <==> CreatedAtDescending(s)
  {
  }

  /** Over stored rows, which all carry created_at, the ordered query lists createdAt non-increasing. */
  lemma CreatedAtNonIncreasing(table: Table, s: TaskStatus)
    requires forall t :: t in table.Values ==> t.createdAt.Some?
    ensures CreatedAtDescending(FindByStatusOrderByCreatedAtDesc(table, s))
  {
    var r := FindByStatusOrderByCreatedAtDesc(table, s);
    OrderedByCreatedAtMembers(table, s);
    forall i | 0 <= i < |r| ensures r[i].createdAt.Some? {
      assert r[i] in r;
    }
    StampedNewestFirst(r);
  }

  /** Upper-casing of ASCII letters; other characters are kept. */
  function AsciiUpper(c: char): char {
    if 'a' <= c <= 'z' then (c as int - 32) as char else c
  }

  predicate IsAsciiLower(c: char) {
    'a' <= c <= 'z'
  }

  /**
   * SQL upper() on ASCII: the same length, no lower-case letter left, each
   * lower-case letter replaced by its capital and every other character kept.
   */
  function UpperCase(s: string): (r: string)
    ensures |r| == |s|
    ensures forall i :: 0 <= i < |r| ==> !IsAsciiLower(r[i])
    ensures forall i :: 0 <= i < |s| ==> !IsAsciiLower(s[i]) ==> r[i] == s[i]
    ensures forall i :: 0 <= i < |s| ==> IsAsciiLower(s[i]) ==> r[i] as int == s[i] as int - 32
  {
    seq(|s|, i requires 0 <= i < |s| => AsciiUpper(s[i]))
  }

  /** Upper-casing is idempotent: an upper-cased string is its own upper case. */
  lemma UpperCaseIdempotent(s: string)
    ensures UpperCase(UpperCase(s)) == UpperCase(s)
  {
    var u := UpperCase(s);
    assert forall i :: 0 <= i < |u| ==> UpperCase(u)[i] == u[i];
  }

  predicate OccursAt(s: string, f: string, i: int) {
    0 <= i && i + |f| <= |s| && s[i..i + |f|] == f
  }

  /** `f` is a substring of `s`. */
  predicate Contains(s: string, f: string)
    decreases |s|
  {
    f <= s || (s != [] && Contains(s[1..], f))
  }

  lemma {:induction false} ContainsIff(s: string, f: string)
    ensures Contains(s, f) <==> exists i :: OccursAt(s, f, i)
    decreases |s|
  {
    if f <= s {
      assert OccursAt(s, f, 0);
    } else if s != [] {
      ContainsIff(s[1..], f);
      forall i | OccursAt(s[1..], f, i) ensures OccursAt(s, f, i + 1) {
        assert s[1..][i..i + |f|] == s[i + 1..i + 1 + |f|];
      }
      forall i | OccursAt(s, f, i) ensures OccursAt(s[1..], f, i - 1) {
        assert i != 0;
        assert s[1..][i - 1..i - 1 + |f|] == s[i..i + |f|];
      }
    }
  }

  /** The SQL `upper(title) like upper('%' || f || '%')` test, with literal wildcards. */
  predicate ContainsIgnoreCase(s: string, f: string) {
    Contains(UpperCase(s), UpperCase(f))
  }

  predicate MatchesIgnoreCaseAt(s: string, f: string, i: int) {
    0 <= i && i + |f| <= |s| && forall j :: 0 <= j < |f| ==> AsciiUpper(s[i + j]) == AsciiUpper(f[j])
  }

  /** Case-insensitive containment: some window of `s` equals `f` letter for letter up to case. */
  lemma ContainsIgnoreCaseIff(s: string, f: string)
    ensures ContainsIgnoreCase(s, f) <==> exists i :: MatchesIgnoreCaseAt(s, f, i)
  {
    var us, uf := UpperCase(s), UpperCase(f);
    ContainsIff(us, uf);
    forall i ensures OccursAt(us, uf, i) <==> MatchesIgnoreCaseAt(s, f, i) {
      if 0 <= i && i + |f| <= |s| {
        if MatchesIgnoreCaseAt(s, f, i) {
          assert us[i..i + |f|] == uf;
        }
        if OccursAt(us, uf, i) {
          forall j | 0 <= j < |f| ensures AsciiUpper(s[i + j]) == AsciiUpper(f[j]) {
            assert us[i..i + |f|][j] == uf[j];
          }
        }
      }
    }
  }

  /** findByTitleContainingIgnoreCase; a row without a title never matches. */
  function FindByTitleContainingIgnoreCase(table: Table, f: string): seq<TaskRow> {
    FindWhere(table, (t: TaskRow) => t.title.Some? && ContainsIgnoreCase(t.title.value, f))
  }

  /** The title search returns exactly the stored tasks whose title contains `f` up to ASCII case. */
  lemma FindByTitleExact(table: Table, f: string)
    ensures var r := FindByTitleContainingIgnoreCase(table, f);
      forall t :: t in r <==>
        t in table.Values && t.title.Some? && exists i :: MatchesIgnoreCaseAt(t.title.value, f, i)
  {
    FindWhereMembers(table, (t: TaskRow) => t.title.Some? && ContainsIgnoreCase(t.title.value, f));
    forall t: TaskRow | t.title.Some? {
      ContainsIgnoreCaseIff(t.title.value, f);
    }
  }
}
