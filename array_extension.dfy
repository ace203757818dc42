/**
 * The collection helpers of Sources/Foundatee/Array+Extension.swift.
 *
 * A Swift `var` array that the `mutating` helpers edit in place is an
 * `ArrayVar` object whose `elements` field they reassign.
 */
module ArrayExtension {
  import opened Wrappers

  newtype int8 = x: int | -128 <= x < 128

  /** No element occurs twice. */
  ghost predicate NoDuplicates<T>(s: seq<T>) {
    forall i, j :: 0 <= i < j < |s| ==> s[i] != s[j]
  }

  // ----- string -----

  /** The characters whose codes are the non-zero items, in order; zero items are skipped. */
  function Int8String(items: seq<int8>): (r: Option<string>)
    requires forall i :: 0 <= i < |items| ==> items[i] >= 0
    ensures r.Some?
    ensures |r.value| == |items| - CountZeros(items)
  {
    if items == [] then Some([])
    else
      var init := Int8String(items[..|items| - 1]).value;
      var last := items[|items| - 1];
      Some(if last != 0 then init + [last as int as char] else init)
  }

  function CountZeros(items: seq<int8>): (n: nat)
    ensures n <= |items|
  {
    if items == [] then 0 else CountZeros(items[..|items| - 1]) + (if items[|items| - 1] == 0 then 1 else 0)
  }

  /** The codes of an ASCII string, as `Int8` values. */
  function Codes(s: string): (items: seq<int8>)
    requires forall i :: 0 <= i < |s| ==> s[i] as int < 128
    ensures |items| == |s|
    ensures forall i :: 0 <= i < |s| ==> items[i] as int == s[i] as int
  {
    if s == [] then [] else Codes(s[..|s| - 1]) + [s[|s| - 1] as int as int8]
  }

  /** A string of non-NUL ASCII characters is rebuilt exactly from its codes. */
  lemma {:induction false} Int8StringOfCodes(s: string)
    requires forall i :: 0 <= i < |s| ==> 0 < s[i] as int < 128
    ensures Int8String(Codes(s)) == Some(s)
  {
    if s != [] {
      var init, codes := s[..|s| - 1], Codes(s);
      assert codes[..|s| - 1] == Codes(init);
      assert codes[|s| - 1] != 0 && codes[|s| - 1] as int as char == s[|s| - 1];
      Int8StringOfCodes(init);
      assert init + [s[|s| - 1]] == s;
    }
  }

  /** A zero anywhere is dropped, not treated as a terminator: what follows it is kept. */
  lemma {:induction false} Int8StringSkipsZero(a: seq<int8>, b: seq<int8>)
    requires forall i :: 0 <= i < |a| ==> a[i] >= 0
    requires forall i :: 0 <= i < |b| ==> b[i] >= 0
    ensures Int8String(a + [0] + b).value == Int8String(a).value + Int8String(b).value
    decreases |b|
  {
    if b == [] {
      assert a + [0] + b == a + [0];
      assert (a + [0])[..|a|] == a;
    } else {
      var init, whole := b[..|b| - 1], a + [0] + b;
      assert whole[..|whole| - 1] == a + [0] + init;
      assert whole[|whole| - 1] == b[|b| - 1];
      Int8StringSkipsZero(a, init);
    }
  }

  // ----- unique -----

  /** The elements of `s` at their first occurrence, in order. */
  function Dedup<T(==)>(s: seq<T>): (r: seq<T>)
    ensures forall i :: 0 <= i < |r| ==> r[i] in s
    ensures forall i :: 0 <= i < |s| ==> s[i] in r
  {
    if s == [] then []
    else
      var init := Dedup(s[..|s| - 1]);
      var last := s[|s| - 1];
      assert forall i :: 0 <= i < |s| - 1 ==> s[..|s| - 1][i] == s[i];
      if last in s[..|s| - 1] then init else init + [last]
  }

  /** `unique`: filters the sequence through a dictionary of the elements already seen. */
  method Unique<T(==)>(s: seq<T>) returns (r: seq<T>)
    ensures r == Dedup(s)
  {
    var seen: map<T, bool> := map[];
    r := [];
    for i := 0 to |s|
      invariant r == Dedup(s[..i])
      invariant forall x :: x in seen <==> x in s[..i]
    {
      var previous := if s[i] in seen then Some(seen[s[i]]) else None;
      seen := seen[s[i] := true];
      if previous == None {
        r := r + [s[i]];
      }
      assert s[..i + 1][..i] == s[..i];
    }
    assert s[..|s|] == s;
  }

  /** `unique` leaves no element twice. */
  lemma {:induction false} DedupNoDuplicates<T>(s: seq<T>)
    ensures NoDuplicates(Dedup(s))
  {
    if s != [] {
      DedupNoDuplicates(s[..|s| - 1]);
    }
  }

  /** On a sequence without repeats `unique` changes nothing, so applying it twice is applying it once. */
  lemma {:induction false} DedupOfDistinct<T>(s: seq<T>)
    requires NoDuplicates(s)
    ensures Dedup(s) == s
  {
    if s != [] {
      var init := s[..|s| - 1];
      assert NoDuplicates(init) by {
        forall i, j | 0 <= i < j < |init|
          ensures init[i] != init[j]
        {
          assert init[i] == s[i] && init[j] == s[j];
        }
      }
      DedupOfDistinct(init);
      assert s[|s| - 1] !in init;
      assert init + [s[|s| - 1]] == s;
    }
  }

  lemma DedupIdempotent<T>(s: seq<T>)
    ensures Dedup(Dedup(s)) == Dedup(s)
  {
    DedupNoDuplicates(s);
    DedupOfDistinct(Dedup(s));
  }

  // ----- distinct(from:) -----

  /** The elements of `s` that do not occur in `source`, in order, repeats kept. */
  function Without<T(==)>(s: seq<T>, source: seq<T>): (r: seq<T>)
    ensures forall i :: 0 <= i < |r| ==> r[i] in s && r[i] !in source
    ensures forall i :: 0 <= i < |s| && s[i] !in source ==> s[i] in r
  {
    if s == [] then []
    else
      var init := Without(s[..|s| - 1], source);
      var last := s[|s| - 1];
      assert forall i :: 0 <= i < |s| - 1 ==> s[..|s| - 1][i] == s[i];
      if last !in source then init + [last] else init
  }

  /** `distinct(from:)`: appends each element of `s` that `source` does not contain. */
  method Distinct<T(==)>(s: seq<T>, source: seq<T>) returns (unique: seq<T>)
    ensures unique == Without(s, source)
  {
    unique := [];
    for i := 0 to |s|
      invariant unique == Without(s[..i], source)
    {
      if s[i] !in source {
        unique := unique + [s[i]];
      }
      assert s[..i + 1][..i] == s[..i];
    }
    assert s[..|s|] == s;
  }

  /** Each element outside `source` keeps its multiplicity; the others are gone. */
  lemma {:induction false} WithoutCounts<T>(s: seq<T>, source: seq<T>, x: T)
    ensures multiset(Without(s, source))[x] == if x in source then 0 else multiset(s)[x]
  {
    if s != [] {
      var init := s[..|s| - 1];
      WithoutCounts(init, source, x);
      assert s == init + [s[|s| - 1]];
    }
  }

  // ----- insertUnique / appendUnique -----

  /** The array after `insertUnique(item:at:)`. */
  function InsertedUnique<T(==)>(s: seq<T>, item: T, index: int): (r: seq<T>)
    requires item !in s ==> 0 <= index <= |s|
    ensures item in r
    ensures item in s ==> r == s
    ensures item !in s ==> |r| == |s| + 1 && r[index] == item && r[..index] == s[..index] && r[index + 1..] == s[index..]
  {
    if item in s then s else s[..index] + [item] + s[index..]
  }

  /** Inserting only absent items keeps a duplicate-free array duplicate-free. */
  lemma InsertedUniqueKeepsNoDuplicates<T>(s: seq<T>, item: T, index: int)
    requires item !in s ==> 0 <= index <= |s|
    requires NoDuplicates(s)
    ensures NoDuplicates(InsertedUnique(s, item, index))
  {
    if item !in s {
      var r := InsertedUnique(s, item, index);
      forall i, j | 0 <= i < j < |r|
        ensures r[i] != r[j]
      {
        if i != index && j != index {
          var i', j' := if i < index then i else i - 1, if j < index then j else j - 1;
          assert r[i] == s[i'] && r[j] == s[j'];
        } else if i == index {
          assert r[j] == s[j - 1];
        } else {
          assert r[i] == s[if i < index then i else i - 1];
        }
      }
    }
  }

  /** The leading run of `objs` already present in `s`, dropped by `insertUnique(itemsIn:at:)`. */
  function DropPresent<T(==)>(objs: seq<T>, s: seq<T>): (r: seq<T>)
    ensures |r| <= |objs| && r == objs[|objs| - |r|..]
    ensures r != [] ==> r[0] !in s
    ensures forall i :: 0 <= i < |objs| - |r| ==> objs[i] in s
  {
    if objs == [] || objs[0] !in s then objs else DropPresent(objs[1..], s)
  }

  /** The array after `insertUnique(itemsIn:at:)`: the rest of `objs`, inserted as one block. */
  function InsertedUniqueItems<T(==)>(s: seq<T>, objs: seq<T>, index: int): (r: seq<T>)
    requires 0 <= index <= |s|
    ensures |s| <= |r| <= |s| + |objs|
    ensures r[..index] == s[..index] && r[|r| - (|s| - index)..] == s[index..]
    ensures forall x :: x in r ==> x in s || x in objs
    ensures (forall x :: x in objs ==> x in s) ==> r == s
  {
    s[..index] + DropPresent(objs, s) + s[index..]
  }

  /** Only the leading present run is skipped: a present item after an absent one is inserted again. */
  lemma InsertedUniqueItemsMayDuplicate()
    ensures InsertedUniqueItems([1], [2, 1], 1) == [1, 2, 1]
    ensures !NoDuplicates(InsertedUniqueItems([1], [2, 1], 1))
  {
    var s: seq<int>, objs: seq<int> := [1], [2, 1];
    assert objs[0] !in s;
    assert DropPresent(objs, s) == objs;
    assert s[..1] == s && s[1..] == [];
    var r := InsertedUniqueItems(s, objs, 1);
    assert r == s + objs == [1, 2, 1];
    assert r[0] == r[2];
  }

  /** A Swift `var` array edited in place by the `mutating` helpers. */
  class ArrayVar<T(==)> {
    var elements: seq<T>

    constructor (elements: seq<T>)
      ensures this.elements == elements
    {
      this.elements := elements;
    }

    method InsertUnique(item: T, index: int)
      requires item !in elements ==> 0 <= index <= |elements|
      modifies this
      ensures elements == InsertedUnique(old(elements), item, index)
    {
      if !(item in elements) {
        elements := elements[..index] + [item] + elements[index..];
      }
    }

    method AppendUnique(item: T)
      modifies this
      ensures elements == InsertedUnique(old(elements), item, |old(elements)|)
      ensures elements == if item in old(elements) then old(elements) else old(elements) + [item]
    {
      InsertUnique(item, |elements|);
    }

    method InsertUniqueItems(objs: seq<T>, index: int)
      requires 0 <= index <= |elements|
      modifies this
      ensures elements == InsertedUniqueItems(old(elements), objs, index)
    {
      var buf := objs;
      while buf != [] && buf[0] in elements
        invariant DropPresent(buf, elements) == DropPresent(objs, elements)
        decreases |buf|
      {
        buf := buf[1..];
      }
      elements := elements[..index] + buf + elements[index..];
    }

    method AppendUniqueItems(objs: seq<T>)
      modifies this
      ensures elements == old(elements) + DropPresent(objs, old(elements))
    {
      ghost var before := elements;
      InsertUniqueItems(objs, |elements|);
      assert before[..|before|] == before && before[|before|..] == [];
    }
  }

  // ----- subscripts -----

  /** `self[safeIndex: index]`. */
  function SafeIndex<T>(s: seq<T>, index: int): (r: Option<T>)
    ensures r.Some? <==> 0 <= index < |s|
    ensures r.Some? ==> r.value == s[index]
  {
    if index >= 0 && index < |s| then Some(s[index]) else None
  }

  /** `self[index, default: value]`. */
  function ElementOr<T>(s: seq<T>, index: int, default: T): T
  {
    if index >= 0 && index < |s| then s[index] else default
  }

  /** The defaulting subscript is the safe subscript with the default filled in. */
  lemma ElementOrIsSafeIndex<T>(s: seq<T>, index: int, default: T)
    ensures ElementOr(s, index, default) == SafeIndex(s, index).GetOr(default)
  {
  }
}
