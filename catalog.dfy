/**
 * The session list of the dashboards: the subdirectories of `separated/htdemucs`,
 * most recently modified first. src/main.py builds it with `sorted(..., reverse=True)`;
 * src/streamlit.py sorts a list in place with `list.sort(..., reverse=True)`.
 * Modification times are the integers the operating system reports.
 */
module Catalog {

  /** One subdirectory: its name and its modification time. */
  datatype Session = Session(name: string, mtime: int)

  /** Ordered by non-increasing modification time. */
  predicate NewestFirst(s: seq<Session>)
  {
    forall i, j :: 0 <= i < j < |s| ==> s[i].mtime >= s[j].mtime
  }

  /** Puts `x` in front of the first session that is not newer than it. */
  function Insert(x: Session, s: seq<Session>): (r: seq<Session>)
    requires NewestFirst(s)
    ensures NewestFirst(r)
    ensures multiset(r) == multiset(s) + multiset{x}
    ensures |r| == |s| + 1
    ensures r != [] && (r[0] == x || (s != [] && r[0] == s[0]))
  {
    if s == [] || x.mtime >= s[0].mtime then [x] + s
    else
      var rest := Insert(x, s[1..]);
      assert s == [s[0]] + s[1..];
      [s[0]] + rest
  }

  /** `sorted(subfolders, key=mtime, reverse=True)`. */
  function ByRecency(s: seq<Session>): (r: seq<Session>)
    ensures NewestFirst(r)
    ensures multiset(r) == multiset(s)
  {
    if s == [] then []
    else
      assert s == [s[0]] + s[1..];
      Insert(s[0], ByRecency(s[1..]))
  }

  /** The sessions of `s` modified at time `t`, in their order in `s`. */
  function At(s: seq<Session>, t: int): seq<Session>
  {
    if s == [] then [] else (if s[0].mtime == t then [s[0]] else []) + At(s[1..], t)
  }

  /** `Insert` puts `x` in front of every session modified at the same time. */
  lemma {:induction false} InsertStable(x: Session, s: seq<Session>, t: int)
    requires NewestFirst(s)
    ensures At(Insert(x, s), t) == (if x.mtime == t then [x] else []) + At(s, t)
  {
    if s == [] || x.mtime >= s[0].mtime {
      assert ([x] + s)[1..] == s;
    } else {
      var rest := Insert(x, s[1..]);
      InsertStable(x, s[1..], t);
      assert Insert(x, s) == [s[0]] + rest;
      assert ([s[0]] + rest)[1..] == rest;
      assert x.mtime == t ==> s[0].mtime != t;
    }
  }

  /**
   * `sorted(..., reverse=True)` is stable: sessions modified at the same time keep the
   * order in which they were listed.
   */
  lemma {:induction false} ByRecencyStable(s: seq<Session>, t: int)
    ensures At(ByRecency(s), t) == At(s, t)
  {
    if s != [] {
      ByRecencyStable(s[1..], t);
      InsertStable(s[0], ByRecency(s[1..]), t);
    }
  }

  /** The first `n` sessions of `a` are newest first. */
  predicate PrefixNewestFirst(a: array<Session>, n: int)
    reads a
  {
    forall p, q :: 0 <= p < q < n && q < a.Length ==> a[p].mtime >= a[q].mtime
  }

  /** Exchanges `a[j - 1]` and `a[j]`, leaving every other session where it was. */
  method SwapDown(a: array<Session>, j: int)
    requires 0 < j < a.Length
    modifies a
    ensures a[j - 1] == old(a[j]) && a[j] == old(a[j - 1])
    ensures forall q :: 0 <= q < a.Length && q != j - 1 && q != j ==> a[q] == old(a[q])
    ensures multiset(a[..]) == old(multiset(a[..]))
  {
    a[j - 1], a[j] := a[j], a[j - 1];
  }

  /**
   * One step of the insertion sort: `a[i]` moves left past every session older than it,
   * so the first `i + 1` sessions are newest first; the rest of the array is untouched.
   */
  method InsertAt(a: array<Session>, i: int)
    requires 0 <= i < a.Length && PrefixNewestFirst(a, i)
    modifies a
    ensures PrefixNewestFirst(a, i + 1)
    ensures multiset(a[..]) == old(multiset(a[..]))
    ensures forall q :: i < q < a.Length ==> a[q] == old(a[q])
  {
    var j := i;
    while j > 0 && a[j - 1].mtime < a[j].mtime
      invariant 0 <= j <= i
      invariant forall p, q :: 0 <= p < q <= i && p != j && q != j ==> a[p].mtime >= a[q].mtime
      invariant forall q :: j < q <= i ==> a[q].mtime < a[j].mtime
      invariant multiset(a[..]) == old(multiset(a[..]))
      invariant forall q :: i < q < a.Length ==> a[q] == old(a[q])
      decreases j
    {
      SwapDown(a, j);
      j := j - 1;
    }
  }

  /**
   * `subfolders.sort(key=mtime, reverse=True)`: an insertion sort in place; the list ends up
   * newest first and holds the same sessions.
   */
  method SortByRecency(a: array<Session>)
    modifies a
    ensures NewestFirst(a[..])
    ensures multiset(a[..]) == old(multiset(a[..]))
  {
    for i := 0 to a.Length
      invariant PrefixNewestFirst(a, i)
      invariant multiset(a[..]) == old(multiset(a[..]))
    {
      InsertAt(a, i);
    }
  }
}
