/**
 A slice of records with unique keys, as the store keeps four of: append in place or into a grown
 copy, overwrite in place, and delete by compacting into the same backing array.
 */
module KeyedLists {
  datatype Outcome<+T> = Ok(value: T) | Exists | Missing | Taken

  /** The order-preserving filter that a delete must amount to. */
  function Without<T>(s: seq<T>, drop: T -> bool): (r: seq<T>)
    ensures |r| <= |s|
  {
    if s == [] then []
    else
      var n := |s| - 1;
      Without(s[..n], drop) + (if drop(s[n]) then [] else [s[n]])
  }

  lemma {:induction false} WithoutMembers<T>(s: seq<T>, drop: T -> bool)
    ensures forall x | x in Without(s, drop) :: x in s && !drop(x)
    ensures forall x | x in s && !drop(x) :: x in Without(s, drop)
  {
    if s != [] {
      var n := |s| - 1;
      WithoutMembers(s[..n], drop);
      assert s == s[..n] + [s[n]];
    }
  }

  ghost predicate UniqueKeys<T>(s: seq<T>, key: T -> string) {
    forall i, j | 0 <= i < j < |s| :: key(s[i]) != key(s[j])
  }

  ghost predicate NoClash<T>(s: seq<T>, clash: (T, T) -> bool) {
    forall i, j | 0 <= i < |s| && 0 <= j < |s| && i != j :: !clash(s[i], s[j])
  }

  predicate HasKey<T>(s: seq<T>, key: T -> string, k: string) {
    exists i | 0 <= i < |s| :: key(s[i]) == k
  }

  function IndexOf<T>(s: seq<T>, key: T -> string, k: string): (i: nat)
    requires HasKey(s, key, k)
    ensures i < |s| && key(s[i]) == k
    ensures forall j | 0 <= j < i :: key(s[j]) != k
  {
    if key(s[0]) == k then 0 else
      assert HasKey(s[1..], key, k) by {
        var i :| 0 <= i < |s| && key(s[i]) == k;
        assert s[1..][i - 1] == s[i];
      }
      var i := IndexOf(s[1..], key, k);
      assert forall j | 1 <= j < i + 1 :: s[j] == s[1..][j - 1];
      i + 1
  }

  predicate IsTaken<T>(s: seq<T>, key: T -> string, clash: (T, T) -> bool, x: T) {
    exists i | 0 <= i < |s| :: key(s[i]) != key(x) && clash(s[i], x)
  }

  /** The list after an upsert, or why it is refused; an empty old key asks for an addition. */
  function Upserted<T>(s: seq<T>, key: T -> string, clash: (T, T) -> bool, oldKey: string, x: T): Outcome<seq<T>> {
    if IsTaken(s, key, clash, x) then Taken
    else if oldKey == "" then
      if HasKey(s, key, key(x)) then Exists else Ok(s + [x])
    else if oldKey != key(x) && HasKey(s, key, key(x)) then Exists
    else if !HasKey(s, key, oldKey) then Missing
    else Ok(s[IndexOf(s, key, oldKey) := x])
  }

  function Deleted<T>(s: seq<T>, key: T -> string, k: string): Outcome<seq<T>> {
    if HasKey(s, key, k) then Ok(Without(s, x => key(x) == k)) else Missing
  }

  /// What the refusals are for: keys stay unique and records that must not coexist never do.

  lemma UpsertKeepsUnique<T>(s: seq<T>, key: T -> string, clash: (T, T) -> bool, oldKey: string, x: T)
    requires UniqueKeys(s, key) && NoClash(s, clash)
    requires forall a, b :: clash(a, b) ==> clash(b, a)
    requires Upserted(s, key, clash, oldKey, x).Ok?
    ensures var t := Upserted(s, key, clash, oldKey, x).value; UniqueKeys(t, key) && NoClash(t, clash)
    ensures x in Upserted(s, key, clash, oldKey, x).value
  {
    var t := Upserted(s, key, clash, oldKey, x).value;
    if oldKey == "" {
      assert t[|s|] == x;
      forall i | 0 <= i < |s|
        ensures key(t[i]) != key(x) && !clash(t[i], x)
      {
        assert t[i] == s[i];
      }
    } else {
      var k := IndexOf(s, key, oldKey);
      assert t[k] == x;
      forall i | 0 <= i < |s| && i != k
        ensures key(t[i]) != key(x) && !clash(t[i], x)
      {
        assert t[i] == s[i];
      }
    }
  }

  lemma {:induction false} WithoutKeepsKeys<T>(s: seq<T>, key: T -> string, drop: T -> bool)
    requires UniqueKeys(s, key)
    ensures UniqueKeys(Without(s, drop), key)
  {
    if s != [] {
      var n := |s| - 1;
      WithoutKeepsKeys(s[..n], key, drop);
      WithoutMembers(s[..n], drop);
      var r := Without(s[..n], drop);
      forall i | 0 <= i < |r|
        ensures key(r[i]) != key(s[n])
      {
        assert r[i] in s[..n];
      }
    }
  }

  lemma {:induction false} WithoutKeepsApart<T>(s: seq<T>, clash: (T, T) -> bool, drop: T -> bool)
    requires NoClash(s, clash)
    ensures NoClash(Without(s, drop), clash)
  {
    if s != [] {
      var n := |s| - 1;
      WithoutKeepsApart(s[..n], clash, drop);
      WithoutMembers(s[..n], drop);
      var r := Without(s[..n], drop);
      forall i | 0 <= i < |r|
        ensures !clash(r[i], s[n]) && !clash(s[n], r[i])
      {
        assert r[i] in s[..n];
        var j :| 0 <= j < n && s[..n][j] == r[i];
        assert s[j] == r[i];
      }
    }
  }

  /** What is left after a deletion was there before, and its keys are still unique. */
  lemma DeleteKeeps<T>(s: seq<T>, key: T -> string, k: string)
    requires UniqueKeys(s, key)
    ensures var d := Deleted(s, key, k); d.Ok? ==> UniqueKeys(d.value, key) && forall x | x in d.value :: x in s
  {
    WithoutKeepsKeys(s, key, x => key(x) == k);
    WithoutMembers(s, x => key(x) == k);
  }

  /** When an upsert is accepted, and which refusal it gets otherwise, record by record. */
  lemma UpsertOutcomeExactly<T>(s: seq<T>, key: T -> string, clash: (T, T) -> bool, oldKey: string, x: T)
    ensures var u := Upserted(s, key, clash, oldKey, x);
      var taken := exists i | 0 <= i < |s| :: key(s[i]) != key(x) && clash(s[i], x);
      var present := exists i | 0 <= i < |s| :: key(s[i]) == key(x);
      var found := exists i | 0 <= i < |s| :: key(s[i]) == oldKey;
      && (u.Taken? <==> taken)
      && (u.Exists? <==> !taken && present && (oldKey == "" || oldKey != key(x)))
      && (u.Missing? <==> !taken && !found && oldKey != "" && (oldKey == key(x) || !present))
      && (u.Ok? <==> !taken && if oldKey == "" then !present else found && (oldKey == key(x) || !present))
  {}

  /** What an accepted upsert does to the others: nothing.  An addition comes last, an update stays in its place. */
  lemma UpsertChangesOne<T>(s: seq<T>, key: T -> string, clash: (T, T) -> bool, oldKey: string, x: T)
    requires UniqueKeys(s, key) && Upserted(s, key, clash, oldKey, x).Ok?
    ensures var t := Upserted(s, key, clash, oldKey, x).value;
      if oldKey == "" then t == s + [x]
      else |t| == |s| && forall i | 0 <= i < |s| :: t[i] == if key(s[i]) == oldKey then x else s[i]
  {}

  /// Whole runs

  datatype Edit<T> = Put(oldKey: string, item: T) | Remove(k: string)

  function Edited<T>(s: seq<T>, key: T -> string, clash: (T, T) -> bool, e: Edit<T>): Outcome<seq<T>> {
    match e
    case Put(k, x) => Upserted(s, key, clash, k, x)
    case Remove(k) => Deleted(s, key, k)
  }

  /** The list after a run of edits; a refused edit changes nothing. */
  function AfterEdits<T>(s: seq<T>, key: T -> string, clash: (T, T) -> bool, edits: seq<Edit<T>>): seq<T>
    decreases edits
  {
    if edits == [] then s
    else
      var r := Edited(s, key, clash, edits[0]);
      AfterEdits(if r.Ok? then r.value else s, key, clash, edits[1..])
  }

  /** Runs are made of single edits: the next one works on what the earlier ones left. */
  lemma {:induction false} EditsOneByOne<T>(s: seq<T>, key: T -> string, clash: (T, T) -> bool, edits: seq<Edit<T>>,
                                            e: Edit<T>)
    ensures var t := AfterEdits(s, key, clash, edits);
      AfterEdits(s, key, clash, edits + [e]) ==
        (if Edited(t, key, clash, e).Ok? then Edited(t, key, clash, e).value else t)
    decreases edits
  {
    if edits == [] {
      assert [e][1..] == [] && edits + [e] == [e];
    } else {
      assert (edits + [e])[1..] == edits[1..] + [e];
      var r := Edited(s, key, clash, edits[0]);
      EditsOneByOne(if r.Ok? then r.value else s, key, clash, edits[1..], e);
    }
  }

  lemma {:induction false} EditsKeepUnique<T(!new)>(s: seq<T>, key: T -> string, clash: (T, T) -> bool,
                                                    edits: seq<Edit<T>>)
    requires UniqueKeys(s, key) && NoClash(s, clash) && (forall a, b :: clash(a, b) ==> clash(b, a))
    ensures UniqueKeys(AfterEdits(s, key, clash, edits), key)
    ensures NoClash(AfterEdits(s, key, clash, edits), clash)
    decreases edits
  {
    if edits != [] {
      var r := Edited(s, key, clash, edits[0]);
      if r.Ok? {
        match edits[0]
        case Put(k, x) => UpsertKeepsUnique(s, key, clash, k, x);
        case Remove(k) =>
          WithoutKeepsKeys(s, key, x => key(x) == k);
          WithoutKeepsApart(s, clash, x => key(x) == k);
      }
      EditsKeepUnique(if r.Ok? then r.value else s, key, clash, edits[1..]);
    }
  }

  /** What holds of every record put, and of every record there was, holds of every record there is. */
  lemma {:induction false} EditsKeepAll<T(!new)>(s: seq<T>, key: T -> string, clash: (T, T) -> bool,
                                                 edits: seq<Edit<T>>, p: T -> bool)
    requires forall x | x in s :: p(x)
    requires forall i | 0 <= i < |edits| && edits[i].Put? :: p(edits[i].item)
    ensures forall x | x in AfterEdits(s, key, clash, edits) :: p(x)
    decreases edits
  {
    if edits != [] {
      var r := Edited(s, key, clash, edits[0]);
      if edits[0].Remove? {
        WithoutMembers(s, x => key(x) == edits[0].k);
      }
      EditsKeepAll(if r.Ok? then r.value else s, key, clash, edits[1..], p);
    }
  }

  lemma WithoutStep<T>(s: seq<T>, i: nat, drop: T -> bool)
    requires i < |s|
    ensures Without(s[..i + 1], drop) == Without(s[..i], drop) + (if drop(s[i]) then [] else [s[i]])
  {
    assert s[..i + 1][..i] == s[..i];
  }

  lemma {:induction false} WithoutShrinks<T>(s: seq<T>, drop: T -> bool)
    ensures |Without(s, drop)| < |s| <==> exists i | 0 <= i < |s| :: drop(s[i])
  {
    if s != [] {
      var n := |s| - 1;
      WithoutShrinks(s[..n], drop);
      if drop(s[n]) {
      } else if exists i | 0 <= i < |s| :: drop(s[i]) {
        var i :| 0 <= i < |s| && drop(s[i]);
        assert drop(s[..n][i]);
      }
    }
  }

  /** Deletes in place: what is kept moves to the front of the same array. */
  method Compact<T>(a: array<T>, n: nat, drop: T -> bool) returns (j: nat)
    requires n <= a.Length
    modifies a
    ensures j <= n && a[..j] == Without(old(a[..n]), drop)
    ensures j == n ==> forall m | 0 <= m < a.Length :: a[m] == old(a[m])
  {
    ghost var s := a[..n];
    j := 0;
    for i := 0 to n
      invariant j <= i
      invariant a[..j] == Without(s[..i], drop)
      invariant forall m | i <= m < a.Length :: a[m] == old(a[m])
      invariant j == i ==> forall m | 0 <= m < i :: a[m] == old(a[m])
    {
      WithoutStep(s, i, drop);
      if !drop(a[i]) {
        assert a[i] == s[i];
        a[j] := a[i];
        j := j + 1;
      }
    }
    assert s[..n] == s;
  }

  class KeyedList<T(0,!new)> {
    const key: T -> string
    const clash: (T, T) -> bool
    var arr: array<T>
    var len: nat

    ghost predicate Valid()
      reads this, arr
    {
      && len <= arr.Length
      && (forall a, b :: clash(a, b) ==> clash(b, a))
      && UniqueKeys(arr[..len], key)
      && NoClash(arr[..len], clash)
    }

    ghost function Contents(): seq<T>
      reads this, arr
      requires len <= arr.Length
    {
      arr[..len]
    }

    constructor (key: T -> string, clash: (T, T) -> bool)
      requires forall a, b :: clash(a, b) ==> clash(b, a)
      ensures Valid() && Contents() == [] && this.key == key && this.clash == clash && fresh(arr)
    {
      this.key, this.clash, this.arr, this.len := key, clash, new T[0], 0;
    }

    /** The copy handed out to readers and listeners. */
    method Snapshot() returns (out: array<T>)
      requires Valid()
      ensures fresh(out) && out[..] == Contents()
    {
      out := new T[len];
      for i := 0 to len
        invariant out[..i] == arr[..i]
      {
        out[i] := arr[i];
      }
    }

    method Grow()
      requires len == arr.Length
      modifies this`arr
      ensures fresh(arr) && len < arr.Length && arr[..len] == old(arr[..len])
    {
      var a, n := arr, len;
      var bigger := new T[2 * n + 1];
      for i := 0 to n
        invariant bigger[..i] == a[..i]
      {
        bigger[i] := a[i];
      }
      arr := bigger;
    }

    method Append(x: T)
      requires len <= arr.Length
      modifies this, arr
      ensures len <= arr.Length && Contents() == old(Contents()) + [x]
      ensures arr == old(arr) || fresh(arr)
    {
      if len == arr.Length {
        Grow();
      }
      arr[len] := x;
      len := len + 1;
    }

    method Upsert(oldKey: string, x: T) returns (r: Outcome<()>)
      requires Valid()
      modifies this, arr
      ensures Valid() && (arr == old(arr) || fresh(arr))
      ensures var u := Upserted(old(Contents()), key, clash, oldKey, x);
        if u.Ok? then r == Ok(()) && Contents() == u.value
        else r == (match u case Taken => Taken case Exists => Exists case _ => Missing)
             && Contents() == old(Contents()) && arr == old(arr)
      ensures r.Ok? ==>
        if oldKey == "" then Contents() == old(Contents()) + [x]
        else len == old(len) && forall i | 0 <= i < len ::
               arr[i] == if key(old(arr[i])) == oldKey then x else old(arr[i])
    {
      ghost var s := Contents();
      var found := false;
      for i := 0 to len
        invariant found <==> exists j | 0 <= j < i :: key(arr[j]) == key(x)
      {
        if key(arr[i]) == key(x) {
          found := true;
        }
      }
      assert found <==> HasKey(s, key, key(x));
      for i := 0 to len
        invariant forall j | 0 <= j < i :: !(key(arr[j]) != key(x) && clash(arr[j], x))
      {
        if key(arr[i]) != key(x) && clash(arr[i], x) {
          assert s[i] == arr[i];
          return Taken;
        }
      }
      if oldKey == "" {
        if found {
          return Exists;
        }
        UpsertOk(s, oldKey, x);
        Append(x);
        return Ok(());
      }
      if oldKey != key(x) && found {
        return Exists;
      }
      for i := 0 to len
        invariant forall j | 0 <= j < i :: key(arr[j]) != oldKey
      {
        if key(arr[i]) == oldKey {
          assert s[i] == arr[i];
          UpsertOk(s, oldKey, x);
          arr[i] := x;
          assert Contents() == s[i := x];
          return Ok(());
        }
      }
      return Missing;
    }

    /** The result of a successful upsert is a valid list again. */
    lemma UpsertOk(s: seq<T>, oldKey: string, x: T)
      requires UniqueKeys(s, key) && NoClash(s, clash) && (forall a, b :: clash(a, b) ==> clash(b, a))
      ensures var u := Upserted(s, key, clash, oldKey, x); u.Ok? ==> UniqueKeys(u.value, key) && NoClash(u.value, clash)
    {
      if Upserted(s, key, clash, oldKey, x).Ok? {
        UpsertKeepsUnique(s, key, clash, oldKey, x);
      }
    }

    method Delete(k: string) returns (r: Outcome<()>)
      requires Valid()
      modifies this`len, arr
      ensures Valid()
      ensures var d := Deleted(old(Contents()), key, k);
        if d.Ok? then r == Ok(()) && Contents() == d.value
        else r == Missing && len == old(len) && arr[..] == old(arr[..])
    {
      ghost var s := Contents();
      var drop := (x: T) => key(x) == k;
      WithoutKeepsKeys(s, key, drop);
      WithoutKeepsApart(s, clash, drop);
      WithoutShrinks(s, drop);
      var j := Compact(arr, len, drop);
      if j == len {
        return Missing;
      }
      len := j;
      return Ok(());
    }
  }

  /** A list handed out earlier is the caller's own: no later edit in place reaches it. */
  method SnapshotSurvives<T(0,!new)>(l: KeyedList<T>, e: Edit<T>) returns (snap: array<T>, r: Outcome<()>)
    requires l.Valid()
    modifies l, l.arr
    ensures l.Valid() && fresh(snap) && snap[..] == old(l.Contents())
    ensures r.Ok? ==> Edited(snap[..], l.key, l.clash, e) == Ok(l.Contents())
    ensures !r.Ok? ==> l.Contents() == snap[..]
  {
    snap := l.Snapshot();
    match e {
      case Put(oldKey, x) => r := l.Upsert(oldKey, x);
      case Remove(k) => r := l.Delete(k);
    }
  }
}
