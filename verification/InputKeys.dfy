/** The canonical input of a coverage computation. The source hashes the formatted tuple; here the
    tuple itself is the key, checksums sorted first, so equal keys mean equal canonical inputs. */
module InputKeys {

  datatype InputKey = InputKey(areaId: nat, crs: string, algorithm: string, checksums: seq<string>, resolution: real)

  /** Lexicographic order of strings. */
  predicate Leq(a: string, b: string) {
    a == [] || (b != [] && (a[0] < b[0] || (a[0] == b[0] && Leq(a[1..], b[1..]))))
  }

  /** The strings agree before `k` and the first is smaller there. */
  predicate LessAt(a: string, b: string, k: nat) {
    k < |a| && k < |b| && a[..k] == b[..k] && a[k] < b[k]
  }

  lemma LessShifts(a: string, b: string, k: nat)
    requires a != [] && b != [] && a[0] == b[0]
    ensures LessAt(a[1..], b[1..], k) <==> LessAt(a, b, k + 1)
  {
    if k < |a| - 1 && k < |b| - 1 {
      assert a[..k + 1] == [a[0]] + a[1..][..k] && b[..k + 1] == [b[0]] + b[1..][..k];
      assert a[..k + 1][1..] == a[1..][..k] && b[..k + 1][1..] == b[1..][..k];
    }
  }

  /** The order of strings: a prefix first, otherwise by the first character that differs. */
  lemma {:induction false} LeqExactly(a: string, b: string)
    ensures Leq(a, b) <==> a <= b || exists k: nat :: LessAt(a, b, k)
  {
    if a != [] && b != [] && a[0] == b[0] {
      LeqExactly(a[1..], b[1..]);
      assert a <= b <==> a[1..] <= b[1..] by {
        assert a == [a[0]] + a[1..] && b == [b[0]] + b[1..];
      }
      forall k: nat ensures LessAt(a[1..], b[1..], k) <==> LessAt(a, b, k + 1) {
        LessShifts(a, b, k);
      }
      if k: nat :| LessAt(a, b, k) {
        assert k > 0 && LessAt(a[1..], b[1..], k - 1);
      }
    } else if a != [] && b != [] {
      assert LessAt(a, b, 0) <==> a[0] < b[0];
    }
  }

  lemma {:induction false} LeqTotal(a: string, b: string)
    ensures Leq(a, b) || Leq(b, a)
    ensures Leq(a, b) && Leq(b, a) ==> a == b
  {
    if a != [] && b != [] && a[0] == b[0] {
      LeqTotal(a[1..], b[1..]);
      assert a == [a[0]] + a[1..] && b == [b[0]] + b[1..];
    }
  }

  lemma {:induction false} LeqTransitive(a: string, b: string, c: string)
    requires Leq(a, b) && Leq(b, c)
    ensures Leq(a, c)
  {
    if a != [] && b != [] && c != [] && a[0] == b[0] == c[0] {
      LeqTransitive(a[1..], b[1..], c[1..]);
    }
  }

  predicate Ordered(values: seq<string>) {
    forall i, j :: 0 <= i < j < |values| ==> Leq(values[i], values[j])
  }

  function Insert(values: seq<string>, v: string): seq<string> {
    if values == [] || Leq(v, values[0]) then [v] + values else [values[0]] + Insert(values[1..], v)
  }

  /** `sort.Strings` on a copy. */
  function Sorted(values: seq<string>): seq<string> {
    if values == [] then [] else Insert(Sorted(values[1..]), values[0])
  }

  lemma {:induction false} InsertKeepsAll(values: seq<string>, v: string)
    ensures multiset(Insert(values, v)) == multiset(values) + multiset{v}
  {
    if values != [] && !Leq(v, values[0]) {
      InsertKeepsAll(values[1..], v);
      assert values == [values[0]] + values[1..];
    }
  }

  lemma {:induction false} InsertOrdered(values: seq<string>, v: string)
    requires Ordered(values)
    ensures Ordered(Insert(values, v))
  {
    if values == [] {
    } else if Leq(v, values[0]) {
      forall j | 0 <= j < |values| ensures Leq(v, values[j]) {
        if j > 0 { LeqTransitive(v, values[0], values[j]); }
      }
    } else {
      InsertOrdered(values[1..], v);
      InsertKeepsAll(values[1..], v);
      LeqTotal(v, values[0]);
      var rest := Insert(values[1..], v);
      forall j | 0 <= j < |rest| ensures Leq(values[0], rest[j]) {
        assert rest[j] in multiset(rest);
        assert rest[j] == v || rest[j] in values[1..];
      }
    }
  }

  lemma {:induction false} SortedIsOrderedPermutation(values: seq<string>)
    ensures multiset(Sorted(values)) == multiset(values)
    ensures Ordered(Sorted(values))
  {
    if values != [] {
      SortedIsOrderedPermutation(values[1..]);
      InsertKeepsAll(Sorted(values[1..]), values[0]);
      InsertOrdered(Sorted(values[1..]), values[0]);
      assert values == [values[0]] + values[1..];
    }
  }

  lemma LeastFirst(a: seq<string>, v: string)
    requires Ordered(a) && v in multiset(a)
    ensures Leq(a[0], v)
  {
    var j :| 0 <= j < |a| && a[j] == v;
    LeqTotal(v, v);
  }

  lemma SplitHead(a: seq<string>)
    requires a != []
    ensures multiset(a[1..]) == multiset(a) - multiset{a[0]}
    ensures a == [a[0]] + a[1..] && a[0] in multiset(a)
  {
    assert a == [a[0]] + a[1..];
  }

  /** A bag of strings has only one ordering. */
  lemma {:induction false} OrderedUnique(a: seq<string>, b: seq<string>)
    requires Ordered(a) && Ordered(b) && multiset(a) == multiset(b)
    ensures a == b
  {
    hide Leq;
    assert |a| == |multiset(a)| == |multiset(b)| == |b|;
    if a != [] {
      SplitHead(a);
      SplitHead(b);
      LeastFirst(a, b[0]);
      LeastFirst(b, a[0]);
      LeqTotal(a[0], b[0]);
      OrderedUnique(a[1..], b[1..]);
    }
  }

  function StableInputKey(areaId: nat, crs: string, algorithm: string, checksums: seq<string>,
                          resolution: real): InputKey {
    InputKey(areaId, crs, algorithm, Sorted(checksums), resolution)
  }

  /** Two inputs have the same key exactly when they agree on everything but the order of checksums. */
  lemma StableKeyIgnoresOrderOnly(
    areaId: nat, crs: string, algorithm: string, checksums: seq<string>, resolution: real,
    areaId': nat, crs': string, algorithm': string, checksums': seq<string>, resolution': real)
    ensures StableInputKey(areaId, crs, algorithm, checksums, resolution)
              == StableInputKey(areaId', crs', algorithm', checksums', resolution')
       <==> areaId == areaId' && crs == crs' && algorithm == algorithm' && resolution == resolution' &&
            multiset(checksums) == multiset(checksums')
  {
    hide Ordered, Sorted;
    SortedIsOrderedPermutation(checksums);
    SortedIsOrderedPermutation(checksums');
    if multiset(checksums) == multiset(checksums') {
      OrderedUnique(Sorted(checksums), Sorted(checksums'));
    }
  }
}
