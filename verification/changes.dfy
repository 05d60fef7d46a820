/**
 * The change model: a change's two sides, the action derived from which
 * sides are present, the mirror image of a change, and the ordering of a
 * change list by path name used to present and compare results.
 */
module Changes {
  import opened Wrappers
  import opened PathOrder
  import opened TreeNoder

  /** One side of a change: the names from the root down to the entry, and the entry. */
  datatype Entry = Entry(path: seq<string>, node: Node)

  /** A change; an absent side is the empty change entry. */
  datatype Change = Change(from: Option<Entry>, to: Option<Entry>)

  datatype Action = Insert | Delete | Modify

  datatype ChangeError = MalformedChange

  /** `Change.Action()`. */
  function ActionOf(c: Change): (r: Result<Action, ChangeError>)
    ensures r == Success(Insert) <==> c.from.None? && c.to.Some?
    ensures r == Success(Delete) <==> c.from.Some? && c.to.None?
    ensures r == Success(Modify) <==> c.from.Some? && c.to.Some?
    ensures r == Failure(MalformedChange) <==> c.from.None? && c.to.None?
  {
    if c.from.None? && c.to.None? then Failure(MalformedChange)
    else if c.from.None? then Success(Insert)
    else if c.to.None? then Success(Delete)
    else Success(Modify)
  }

  /** The `/`-joined full path of one side. */
  function PathName(e: Entry): string
  {
    Join(e.path)
  }

  /** The path a change is reported and sorted under: the `to` side's, else the `from` side's. */
  function Name(c: Change): (r: string)
    ensures c.to.Some? ==> r == Join(c.to.value.path)
    ensures c.from.Some? && (c.to.None? || c.to.value.path == c.from.value.path) ==>
      r == Join(c.from.value.path)
  {
    if c.to.Some? then PathName(c.to.value)
    else if c.from.Some? then PathName(c.from.value)
    else ""
  }

  /** The same change seen with the two trees' roles exchanged. */
  function Mirror(c: Change): Change
  {
    Change(c.to, c.from)
  }

  function SwapAction(a: Action): Action
  {
    match a
    case Insert => Delete
    case Delete => Insert
    case Modify => Modify
  }

  /** Mirroring swaps Insert and Delete, keeps Modify, and undoes itself. */
  lemma MirrorAction(c: Change)
    ensures ActionOf(c).Success? <==> ActionOf(Mirror(c)).Success?
    ensures ActionOf(c).Success? ==> ActionOf(Mirror(c)).value == SwapAction(ActionOf(c).value)
    ensures Mirror(Mirror(c)) == c
  {
  }

  function MirrorAll(cs: seq<Change>): (r: seq<Change>)
    ensures |r| == |cs|
  {
    if |cs| == 0 then [] else [Mirror(cs[0])] + MirrorAll(cs[1..])
  }

  lemma {:induction false} MirrorAllIndex(cs: seq<Change>, i: nat)
    requires i < |cs|
    ensures MirrorAll(cs)[i] == Mirror(cs[i])
  {
    if i > 0 {
      MirrorAllIndex(cs[1..], i - 1);
    }
  }

  lemma {:induction false} MirrorAllAppend(a: seq<Change>, b: seq<Change>)
    ensures MirrorAll(a + b) == MirrorAll(a) + MirrorAll(b)
  {
    if |a| == 0 {
      assert a + b == b;
    } else {
      assert (a + b)[1..] == a[1..] + b;
      MirrorAllAppend(a[1..], b);
    }
  }

  /** A change is in the mirrored list exactly when its mirror is in the original list. */
  lemma MirrorAllMembership(cs: seq<Change>, c: Change)
    ensures c in MirrorAll(cs) <==> Mirror(c) in cs
  {
    if c in MirrorAll(cs) {
      var i :| 0 <= i < |cs| && MirrorAll(cs)[i] == c;
      MirrorAllIndex(cs, i);
    }
    if Mirror(c) in cs {
      var i :| 0 <= i < |cs| && cs[i] == Mirror(c);
      MirrorAllIndex(cs, i);
    }
  }

  lemma {:induction false} MirrorAllInvolution(cs: seq<Change>)
    ensures MirrorAll(MirrorAll(cs)) == cs
  {
    if |cs| > 0 {
      MirrorAllInvolution(cs[1..]);
    }
  }

  /** Adjacent changes are in ascending order of name. */
  predicate Sorted(cs: seq<Change>)
  {
    forall i :: 0 <= i < |cs| - 1 ==> StrLe(Name(cs[i]), Name(cs[i + 1]))
  }

  /** Adjacent order is enough: any earlier change sorts before any later one. */
  lemma {:induction false} SortedPairwise(cs: seq<Change>)
    requires Sorted(cs)
    ensures forall i, j :: 0 <= i < j < |cs| ==> StrLe(Name(cs[i]), Name(cs[j]))
  {
    if |cs| > 1 {
      SortedPairwise(cs[1..]);
      forall j | 1 < j < |cs|
        ensures StrLe(Name(cs[0]), Name(cs[j]))
      {
        assert cs[j] == cs[1..][j - 1];
        StrLeTransitive(Name(cs[0]), Name(cs[1]), Name(cs[j]));
      }
      forall i, j | 0 < i < j < |cs|
        ensures StrLe(Name(cs[i]), Name(cs[j]))
      {
        assert cs[i] == cs[1..][i - 1] && cs[j] == cs[1..][j - 1];
      }
    }
  }

  /** Insert one change into a sorted list. */
  function InsertSorted(c: Change, cs: seq<Change>): (r: seq<Change>)
    requires Sorted(cs)
    ensures Sorted(r)
    ensures multiset(r) == multiset(cs) + multiset{c}
    ensures |r| > 0 && (r[0] == c || (|cs| > 0 && r[0] == cs[0]))
  {
    if |cs| == 0 then [c]
    else if StrLe(Name(c), Name(cs[0])) then [c] + cs
    else
      StrLeTotal(Name(c), Name(cs[0]));
      var rest := InsertSorted(c, cs[1..]);
      assert cs == [cs[0]] + cs[1..];
      [cs[0]] + rest
  }

  /** `sort.Sort(changes)`: the changes in ascending order of name. */
  function SortByName(cs: seq<Change>): (r: seq<Change>)
    ensures Sorted(r)
    ensures multiset(r) == multiset(cs)
    ensures |r| == |cs|
  {
    if |cs| == 0 then []
    else
      assert cs == [cs[0]] + cs[1..];
      InsertSorted(cs[0], SortByName(cs[1..]))
  }

  /** Sorting a list already in order leaves it as it is; in particular sorting twice is sorting once. */
  lemma {:induction false} SortSorted(cs: seq<Change>)
    requires Sorted(cs)
    ensures SortByName(cs) == cs
  {
    if |cs| > 0 {
      SortSorted(cs[1..]);
      if |cs| > 1 {
        assert StrLe(Name(cs[0]), Name(cs[1]));
      }
    }
  }

  lemma SortIdempotent(cs: seq<Change>)
    ensures SortByName(SortByName(cs)) == SortByName(cs)
  {
    SortSorted(SortByName(cs));
  }

  /** No two changes are reported under the same name. */
  predicate DistinctNames(cs: seq<Change>)
  {
    forall i, j :: 0 <= i < j < |cs| ==> Name(cs[i]) != Name(cs[j])
  }

  lemma {:induction false} InsertKeepsDistinct(c: Change, cs: seq<Change>)
    requires Sorted(cs) && DistinctNames(cs)
    requires forall x :: x in cs ==> Name(x) != Name(c)
    ensures DistinctNames(InsertSorted(c, cs))
  {
    if |cs| > 0 && !StrLe(Name(c), Name(cs[0])) {
      var rest := InsertSorted(c, cs[1..]);
      InsertKeepsDistinct(c, cs[1..]);
      forall x | x in rest
        ensures Name(x) != Name(cs[0])
      {
        assert x in multiset(rest);
        if x != c {
          assert x in multiset(cs[1..]);
          var j :| 0 <= j < |cs[1..]| && cs[1..][j] == x;
          assert cs[j + 1] == x;
        }
      }
      var r := [cs[0]] + rest;
      forall i, j | 0 <= i < j < |r|
        ensures Name(r[i]) != Name(r[j])
      {
        if i > 0 {
          assert r[i] == rest[i - 1] && r[j] == rest[j - 1];
        } else {
          assert r[j] in rest;
        }
      }
    }
  }

  /**
   * Sorting keeps names distinct, and a list of distinct names comes out in
   * strictly ascending order: the presentation order is then fully determined.
   */
  lemma {:induction false} SortDistinct(cs: seq<Change>)
    requires DistinctNames(cs)
    ensures DistinctNames(SortByName(cs))
    ensures forall i :: 0 <= i < |cs| - 1 ==>
      StrLt(Name(SortByName(cs)[i]), Name(SortByName(cs)[i + 1]))
  {
    if |cs| > 0 {
      var tail := SortByName(cs[1..]);
      assert DistinctNames(cs[1..]) by {
        forall i, j | 0 <= i < j < |cs[1..]|
          ensures Name(cs[1..][i]) != Name(cs[1..][j])
        {
          assert cs[1..][i] == cs[i + 1] && cs[1..][j] == cs[j + 1];
        }
      }
      SortDistinct(cs[1..]);
      forall x | x in tail
        ensures Name(x) != Name(cs[0])
      {
        assert x in multiset(tail);
        var j :| 0 <= j < |cs[1..]| && cs[1..][j] == x;
        assert cs[j + 1] == x;
      }
      InsertKeepsDistinct(cs[0], tail);
    }
  }

  /** One row of an expected result: an action and the path it is reported under. */
  datatype Expected = Expected(action: Action, name: string)

  /**
   * `equalChanges`: the same number of changes and, once sorted by name,
   * row by row the same action and name.
   */
  predicate EqualChanges(a: seq<Change>, b: seq<Expected>)
  {
    |a| == |b| &&
    var s := SortByName(a);
    forall i :: 0 <= i < |s| ==> ActionOf(s[i]) == Success(b[i].action) && Name(s[i]) == b[i].name
  }

  /** `assertChanges`: every change has an action, so at least one side is present. */
  predicate AllActionable(a: seq<Change>)
  {
    forall c :: c in a ==> ActionOf(c).Success?
  }

  /** Two name-sorted lists holding the same changes start with the same one when the names are distinct. */
  lemma SortedSameHead(s: seq<Change>, t: seq<Change>)
    requires Sorted(s) && Sorted(t) && DistinctNames(s)
    requires multiset(s) == multiset(t) && |s| > 0
    ensures |t| > 0 && s[0] == t[0]
  {
    assert s[0] in multiset(t);
    var k :| 0 <= k < |t| && t[k] == s[0];
    assert t[0] in multiset(s);
    var m :| 0 <= m < |s| && s[m] == t[0];
    SortedPairwise(s);
    SortedPairwise(t);
    StrLeReflexive(Name(s[0]));
    StrLeReflexive(Name(t[0]));
    assert StrLe(Name(s[0]), Name(s[m]));
    assert StrLe(Name(t[0]), Name(t[k]));
    StrLeAntisymmetric(Name(s[0]), Name(t[0]));
  }

  /** The tail of a sorted list is sorted, and the list's changes are its head's and its tail's. */
  lemma SortedTail(s: seq<Change>)
    requires Sorted(s) && |s| > 0
    ensures Sorted(s[1..])
    ensures multiset(s[1..]) == multiset(s) - multiset{s[0]}
  {
    assert s == [s[0]] + s[1..];
    assert multiset(s) == multiset{s[0]} + multiset(s[1..]);
    forall i | 0 <= i < |s| - 2
      ensures StrLe(Name(s[1..][i]), Name(s[1..][i + 1]))
    {
      assert s[1..][i] == s[i + 1] && s[1..][i + 1] == s[i + 2];
    }
  }

  lemma DistinctTail(s: seq<Change>)
    requires DistinctNames(s) && |s| > 0
    ensures DistinctNames(s[1..])
  {
    forall i, j | 0 <= i < j < |s[1..]|
      ensures Name(s[1..][i]) != Name(s[1..][j])
    {
      assert s[1..][i] == s[i + 1] && s[1..][j] == s[j + 1];
    }
  }

  /**
   * Two name-sorted lists holding the same changes are the same list when
   * the names are distinct: sorting leaves no choice.
   */
  lemma {:induction false} SortedUnique(s: seq<Change>, t: seq<Change>)
    requires Sorted(s) && Sorted(t) && DistinctNames(s)
    requires multiset(s) == multiset(t)
    ensures s == t
    decreases |s|
  {
    if |s| == 0 {
      assert |t| == |multiset(t)| == 0;
    } else {
      SortedSameHead(s, t);
      SortedTail(s);
      SortedTail(t);
      DistinctTail(s);
      SortedUnique(s[1..], t[1..]);
      assert s == [s[0]] + s[1..] && t == [t[0]] + t[1..];
    }
  }

  /**
   * `equalChanges` does not depend on the order its changes arrive in: any
   * reordering of a list with distinct names is judged the same.
   */
  lemma EqualChangesPermutation(a: seq<Change>, a': seq<Change>, b: seq<Expected>)
    requires multiset(a) == multiset(a') && DistinctNames(a)
    ensures EqualChanges(a, b) <==> EqualChanges(a', b)
  {
    assert |a| == |multiset(a)| == |a'|;
    SortDistinct(a);
    SortedUnique(SortByName(a), SortByName(a'));
  }
}
