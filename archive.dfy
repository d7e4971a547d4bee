/**
 * An opened archive (the `Jar` the core receives): its version tag, its entry paths in key order and
 * each entry's bytes. Also the integer form of the percentage the bulk operations publish.
 */
module Archive {
  import opened Wrappers
  import opened Strings

  newtype byte = x: int | 0 <= x < 256

  datatype Jar = Jar(version: string, paths: seq<string>, data: map<string, seq<byte>>)
  {
    /** Paths are the distinct keys of the entry map, in `Object.keys` order. */
    ghost predicate Valid() {
      (forall i, j :: 0 <= i < j < |paths| ==> paths[i] != paths[j])
      && (forall p :: p in data <==> p in paths)
    }
  }

  predicate IsClassFile(name: string) {
    EndsWith(name, ".class")
  }

  /** `Object.keys(jar.entries).filter(name => name.endsWith(".class"))`: every class file, nested ones included. */
  function ClassFileNames(jar: Jar): (r: seq<string>)
    ensures forall n :: n in r <==> n in jar.paths && EndsWith(n, ".class")
  {
    Filter(jar.paths, IsClassFile)
  }

  /** `Math.round(done / total * 100)` for non-negative counts, with the division carried out exactly. */
  function RoundPercent(done: nat, total: nat): (r: nat)
    requires total > 0
  {
    (200 * done + total) / (2 * total)
  }

  lemma MulAtLeast(k: nat, n: int)
    requires n >= 1
    ensures k * n >= k
  {
    assert k * n == k + k * (n - 1);
  }

  lemma DivMonotone(x: nat, y: nat, k: nat)
    requires 0 < k && x <= y
    ensures x / k <= y / k
  {
    var qx, qy := x / k, y / k;
    assert k * qx + x % k == x && k * qy + y % k == y;
    if qx > qy {
      MulAtLeast(k, qx - qy);
    }
  }

  lemma DivExact(q: nat, k: nat, rest: nat)
    requires 0 < k && rest < k
    ensures (k * q + rest) / k == q
  {
    var x := k * q + rest;
    var d, m := x / k, x % k;
    assert k * d + m == x && 0 <= m < k;
    if d > q {
      MulAtLeast(k, d - q);
    } else if d < q {
      MulAtLeast(k, q - d);
    }
  }

  lemma RoundPercentBounds(done: nat, total: nat)
    requires 0 < total && done <= total
    ensures RoundPercent(done, total) <= 100
    ensures RoundPercent(total, total) == 100
    ensures RoundPercent(0, total) == 0
  {
    DivExact(100, 2 * total, total);
    assert 200 * total + total == (2 * total) * 100 + total;
    DivExact(0, 2 * total, total);
    DivMonotone(200 * done + total, 200 * total + total, 2 * total);
  }

  /** More work done never lowers the published percentage. */
  lemma RoundPercentMonotone(a: nat, b: nat, total: nat)
    requires 0 < total && a <= b
    ensures RoundPercent(a, total) <= RoundPercent(b, total)
  {
    DivMonotone(200 * a + total, 200 * b + total, 2 * total);
  }
}
