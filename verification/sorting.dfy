/** The three orderings the queries ask the database for: distinct strings
    ascending (`DISTINCT ... ORDER BY event_date ASC`), event options by name
    ascending (`ORDER BY event_name ASC`) and registrations by creation time
    descending (`ORDER BY created DESC`). Each is an insertion sort; where the
    database leaves the order of ties open, the contracts do too. */
module Sorting {
  import opened StringOrder
  import opened Tables

  // ---- distinct strings, ascending ----

  function InsertDistinct(x: string, s: seq<string>): (r: seq<string>)
    requires StrictlyAscending(s)
    ensures StrictlyAscending(r)
    ensures forall y :: y in r <==> y == x || y in s
  {
    if |s| == 0 then [x]
    else if x == s[0] then s
    else if Less(x, s[0]) then
      assert forall j :: 0 < j < |s| ==> Less(x, s[j]) by {
        forall j | 0 < j < |s|
          ensures Less(x, s[j])
        {
          LessTransitive(x, s[0], s[j]);
        }
      }
      [x] + s
    else
      LessTotal(x, s[0]);
      var rest := InsertDistinct(x, s[1..]);
      assert forall j :: 0 <= j < |rest| ==> Less(s[0], rest[j]) by {
        forall j | 0 <= j < |rest|
          ensures Less(s[0], rest[j])
        {
          assert rest[j] in rest;
          if rest[j] != x {
            var k :| 0 <= k < |s[1..]| && s[1..][k] == rest[j];
            assert s[k + 1] == rest[j];
          }
        }
      }
      assert s == [s[0]] + s[1..];
      [s[0]] + rest
  }

  /** The distinct values of `xs`, strictly ascending. */
  function SortedDistinct(xs: seq<string>): (r: seq<string>)
    ensures StrictlyAscending(r)
    ensures forall y :: y in r <==> y in xs
  {
    if |xs| == 0 then []
    else
      assert xs == [xs[0]] + xs[1..];
      InsertDistinct(xs[0], SortedDistinct(xs[1..]))
  }

  // ---- event options, by name ascending ----

  predicate SortedByName(s: seq<EventOption>) {
    forall i, j :: 0 <= i < j < |s| ==> LessEq(s[i].name, s[j].name)
  }

  /** In a name-sorted sequence no later entry sorts before the first. */
  lemma HeadIsFirstByName(s: seq<EventOption>)
    requires SortedByName(s) && |s| > 0
    ensures forall y :: y in multiset(s[1..]) ==> LessEq(s[0].name, y.name)
  {
    forall y | y in multiset(s[1..])
      ensures LessEq(s[0].name, y.name)
    {
      var k :| 0 <= k < |s[1..]| && s[1..][k] == y;
      assert s[k + 1] == y;
    }
  }

  /** An entry sorting no later than any of a name-sorted sequence can go in front. */
  lemma SortedByNameCons(o: EventOption, s: seq<EventOption>)
    requires SortedByName(s)
    requires forall j :: 0 <= j < |s| ==> LessEq(o.name, s[j].name)
    ensures SortedByName([o] + s)
  {
    var r := [o] + s;
    forall i, j | 0 <= i < j < |r|
      ensures LessEq(r[i].name, r[j].name)
    {
      assert r[j] == s[j - 1];
      if i > 0 {
        assert r[i] == s[i - 1];
      }
    }
  }

  function InsertByName(o: EventOption, s: seq<EventOption>): (r: seq<EventOption>)
    requires SortedByName(s)
    ensures SortedByName(r)
    ensures multiset(r) == multiset(s) + multiset{o}
  {
    if |s| == 0 then [o]
    else if LessEq(o.name, s[0].name) then
      assert forall j :: 0 <= j < |s| ==> LessEq(o.name, s[j].name) by {
        forall j | 0 < j < |s|
          ensures LessEq(o.name, s[j].name)
        {
          LessEqTransitive(o.name, s[0].name, s[j].name);
        }
      }
      SortedByNameCons(o, s);
      [o] + s
    else
      LessTotal(o.name, s[0].name);
      var rest := InsertByName(o, s[1..]);
      assert s == [s[0]] + s[1..];
      HeadIsFirstByName(s);
      assert forall j :: 0 <= j < |rest| ==> LessEq(s[0].name, rest[j].name) by {
        forall j | 0 <= j < |rest|
          ensures LessEq(s[0].name, rest[j].name)
        {
          assert rest[j] in multiset(rest);
        }
      }
      SortedByNameCons(s[0], rest);
      [s[0]] + rest
  }

  /** A permutation of `s`, non-decreasing by name. */
  function SortByName(s: seq<EventOption>): (r: seq<EventOption>)
    ensures SortedByName(r)
    ensures multiset(r) == multiset(s)
  {
    if |s| == 0 then []
    else
      assert s == [s[0]] + s[1..];
      InsertByName(s[0], SortByName(s[1..]))
  }

  // ---- registrations, by creation time descending ----

  predicate NewestFirst(s: seq<Registration>) {
    forall i, j :: 0 <= i < j < |s| ==> s[i].created >= s[j].created
  }

  /** In a newest-first sequence no later row is newer than the first. */
  lemma HeadIsNewest(s: seq<Registration>)
    requires NewestFirst(s) && |s| > 0
    ensures forall y :: y in multiset(s[1..]) ==> y.created <= s[0].created
  {
    forall y | y in multiset(s[1..])
      ensures y.created <= s[0].created
    {
      var k :| 0 <= k < |s[1..]| && s[1..][k] == y;
      assert s[k + 1] == y;
    }
  }

  /** A row no older than any of a newest-first sequence can go in front. */
  lemma NewestFirstCons(y: Registration, s: seq<Registration>)
    requires NewestFirst(s)
    requires forall j :: 0 <= j < |s| ==> y.created >= s[j].created
    ensures NewestFirst([y] + s)
  {
    var r := [y] + s;
    forall i, j | 0 <= i < j < |r|
      ensures r[i].created >= r[j].created
    {
      assert r[j] == s[j - 1];
      if i > 0 {
        assert r[i] == s[i - 1];
      }
    }
  }

  function InsertNewestFirst(x: Registration, s: seq<Registration>): (r: seq<Registration>)
    requires NewestFirst(s)
    ensures NewestFirst(r)
    ensures multiset(r) == multiset(s) + multiset{x}
  {
    if |s| == 0 then [x]
    else if x.created >= s[0].created then
      NewestFirstCons(x, s);
      [x] + s
    else
      var rest := InsertNewestFirst(x, s[1..]);
      assert s == [s[0]] + s[1..];
      HeadIsNewest(s);
      assert forall j :: 0 <= j < |rest| ==> s[0].created >= rest[j].created by {
        forall j | 0 <= j < |rest|
          ensures s[0].created >= rest[j].created
        {
          assert rest[j] in multiset(rest);
        }
      }
      NewestFirstCons(s[0], rest);
      [s[0]] + rest
  }

  /** A permutation of `s`, non-increasing by `created`. */
  function SortNewestFirst(s: seq<Registration>): (r: seq<Registration>)
    ensures NewestFirst(r)
    ensures multiset(r) == multiset(s)
  {
    if |s| == 0 then []
    else
      assert s == [s[0]] + s[1..];
      InsertNewestFirst(s[0], SortNewestFirst(s[1..]))
  }
}
