/**
 * De-duplication by `(title, link)`, as the comprehension
 * `{(j["title"], j["link"]): j for j in jobs}` followed by `list(uniq.values())`
 * does it: a Python dict remembers the order in which keys were first
 * inserted, and assigning to a key already present replaces its value in
 * place. So each key appears once, at the position of its first occurrence,
 * holding the last record with that key.
 */
module Deduplication {
  import opened Jobs

  /** A Python dict from keys to records: keys in insertion order, and the current values. */
  datatype Table = Table(order: seq<Key>, entries: map<Key, Job>)

  /** `d[key] = j`. */
  function Put(t: Table, j: Job): (r: Table)
    ensures r.entries == t.entries[KeyOf(j) := j]
  {
    if KeyOf(j) in t.entries then Table(t.order, t.entries[KeyOf(j) := j])
    else Table(t.order + [KeyOf(j)], t.entries[KeyOf(j) := j])
  }

  /** The dict comprehension: the records inserted one after another. */
  function Comprehend(jobs: seq<Job>): (t: Table)
    ensures |t.order| <= |jobs|
  {
    if jobs == [] then Table([], map[])
    else Put(Comprehend(jobs[..|jobs| - 1]), jobs[|jobs| - 1])
  }

  /** The keys of a table's order all have values. */
  predicate Covered(t: Table) {
    forall i :: 0 <= i < |t.order| ==> t.order[i] in t.entries
  }

  /** `list(d.values())`. */
  function Values(t: Table): (r: seq<Job>)
    requires Covered(t)
    ensures |r| == |t.order|
  {
    seq(|t.order|, i requires 0 <= i < |t.order| && Covered(t) => t.entries[t.order[i]])
  }

  /** `list({(j["title"], j["link"]): j for j in jobs}.values())`. */
  function Dedup(jobs: seq<Job>): (r: seq<Job>)
    ensures |r| <= |jobs|
  {
    var t := Comprehend(jobs);
    ComprehendRepresents(jobs);
    Values(t)
  }

  // ---------------------------------------------------------------------
  // An independent description: first and last occurrences of each key.
  // ---------------------------------------------------------------------

  /** The keys of a list of records. */
  function KeysOf(jobs: seq<Job>): set<Key> {
    set j | j in jobs :: KeyOf(j)
  }

  /** The position of the first record with key `k`. */
  function FirstIndex(jobs: seq<Job>, k: Key): (i: nat)
    requires k in KeysOf(jobs)
    ensures i < |jobs| && KeyOf(jobs[i]) == k
    ensures forall p :: 0 <= p < i ==> KeyOf(jobs[p]) != k
  {
    if KeyOf(jobs[0]) == k then 0
    else
      assert k in KeysOf(jobs[1..]) by {
        var j :| j in jobs && KeyOf(j) == k;
        assert j in jobs[1..];
      }
      1 + FirstIndex(jobs[1..], k)
  }

  /** The position of the last record with key `k`. */
  function LastIndex(jobs: seq<Job>, k: Key): (i: nat)
    requires k in KeysOf(jobs)
    ensures i < |jobs| && KeyOf(jobs[i]) == k
    ensures forall p :: i < p < |jobs| ==> KeyOf(jobs[p]) != k
  {
    var n := |jobs| - 1;
    if KeyOf(jobs[n]) == k then n
    else
      assert k in KeysOf(jobs[..n]) by {
        var j :| j in jobs && KeyOf(j) == k;
        assert j in jobs[..n];
      }
      LastIndex(jobs[..n], k)
  }

  /** No two records share a key. */
  predicate DistinctKeys(jobs: seq<Job>) {
    forall p, q :: 0 <= p < q < |jobs| ==> KeyOf(jobs[p]) != KeyOf(jobs[q])
  }

  /**
   * What de-duplication must produce from `jobs`: the same keys, each once,
   * each holding the last record with that key, in the order of the keys'
   * first occurrences.
   */
  predicate IsDedupOf(out: seq<Job>, jobs: seq<Job>) {
    && KeysOf(out) == KeysOf(jobs)
    && DistinctKeys(out)
    && (forall p :: 0 <= p < |out| ==> out[p] == jobs[LastIndex(jobs, KeyOf(out[p]))])
    && (forall p, q :: 0 <= p < q < |out| ==>
          FirstIndex(jobs, KeyOf(out[p])) < FirstIndex(jobs, KeyOf(out[q])))
  }

  /** The table the comprehension builds over `jobs`, described by first and last occurrences. */
  predicate Represents(t: Table, jobs: seq<Job>) {
    && Covered(t)
    && t.entries.Keys == KeysOf(jobs)
    && (forall k :: k in t.entries ==> t.entries[k] == jobs[LastIndex(jobs, k)])
    && (forall p, q :: 0 <= p < q < |t.order| ==>
          FirstIndex(jobs, t.order[p]) < FirstIndex(jobs, t.order[q]))
  }

  lemma KeysOfSnoc(jobs: seq<Job>, j: Job)
    ensures KeysOf(jobs + [j]) == KeysOf(jobs) + {KeyOf(j)}
  {
    forall k | k in KeysOf(jobs + [j]) ensures k in KeysOf(jobs) + {KeyOf(j)} {
      var x :| x in jobs + [j] && KeyOf(x) == k;
      if x != j {
        assert x in jobs;
      }
    }
    forall k | k in KeysOf(jobs) ensures k in KeysOf(jobs + [j]) {
      var x :| x in jobs && KeyOf(x) == k;
      assert x in jobs + [j];
    }
    assert j in jobs + [j];
  }

  /** Every key the comprehension has seen is in the order, and the order holds nothing else. */
  lemma {:induction false} ComprehendOrder(jobs: seq<Job>)
    ensures forall k :: k in Comprehend(jobs).order <==> k in Comprehend(jobs).entries
  {
    if jobs != [] {
      ComprehendOrder(jobs[..|jobs| - 1]);
    }
  }

  /** Appending a record leaves the first occurrence of every earlier key where it was. */
  lemma FirstIndexSnoc(prefix: seq<Job>, x: Job, k: Key)
    requires k in KeysOf(prefix)
    ensures k in KeysOf(prefix + [x]) && FirstIndex(prefix + [x], k) == FirstIndex(prefix, k)
  {
    KeysOfSnoc(prefix, x);
    var i, i' := FirstIndex(prefix + [x], k), FirstIndex(prefix, k);
    assert (prefix + [x])[i'] == prefix[i'];
  }

  /** A key seen for the first time at the end first occurs there. */
  lemma FirstIndexSnocNew(prefix: seq<Job>, x: Job)
    requires KeyOf(x) !in KeysOf(prefix)
    ensures KeyOf(x) in KeysOf(prefix + [x]) && FirstIndex(prefix + [x], KeyOf(x)) == |prefix|
  {
    KeysOfSnoc(prefix, x);
    forall p | 0 <= p < |prefix|
      ensures KeyOf((prefix + [x])[p]) != KeyOf(x)
    {
      assert (prefix + [x])[p] == prefix[p];
      assert prefix[p] in prefix;
    }
  }

  /** Appending a record makes it the last occurrence of its key and moves no other key's. */
  lemma LastIndexSnoc(prefix: seq<Job>, x: Job, k: Key)
    requires k in KeysOf(prefix + [x])
    ensures k == KeyOf(x) ==> LastIndex(prefix + [x], k) == |prefix|
    ensures k != KeyOf(x) ==> k in KeysOf(prefix) && LastIndex(prefix + [x], k) == LastIndex(prefix, k)
  {
    KeysOfSnoc(prefix, x);
    if k != KeyOf(x) {
      var i, i' := LastIndex(prefix + [x], k), LastIndex(prefix, k);
      assert (prefix + [x])[i'] == prefix[i'];
      assert (prefix + [x])[i] == prefix[i];
    }
  }

  /** The comprehension's table is described by first and last occurrences. */
  lemma {:induction false} ComprehendRepresents(jobs: seq<Job>)
    ensures Represents(Comprehend(jobs), jobs)
  {
    if jobs != [] {
      var n := |jobs| - 1;
      var prefix, x := jobs[..n], jobs[n];
      assert jobs == prefix + [x];
      ComprehendRepresents(prefix);
      ComprehendOrder(prefix);
      KeysOfSnoc(prefix, x);
      PutRepresents(Comprehend(prefix), prefix, x);
    }
  }

  /** Inserting one more record keeps the description. */
  lemma PutRepresents(t: Table, prefix: seq<Job>, x: Job)
    requires Represents(t, prefix)
    requires forall k :: k in t.order <==> k in t.entries
    ensures Represents(Put(t, x), prefix + [x])
  {
    PutEntries(t, prefix, x);
    PutOrder(t, prefix, x);
  }

  /** After `d[key] = x`, every value is its key's last record in the extended list. */
  lemma PutEntries(t: Table, prefix: seq<Job>, x: Job)
    requires Represents(t, prefix)
    ensures Covered(Put(t, x))
    ensures Put(t, x).entries.Keys == KeysOf(prefix + [x])
    ensures forall k :: k in Put(t, x).entries ==> Put(t, x).entries[k] == (prefix + [x])[LastIndex(prefix + [x], k)]
  {
    var jobs := prefix + [x];
    var r := Put(t, x);
    KeysOfSnoc(prefix, x);
    forall k | k in r.entries
      ensures r.entries[k] == jobs[LastIndex(jobs, k)]
    {
      LastIndexSnoc(prefix, x, k);
    }
  }

  /** After `d[key] = x`, the keys are still in the order of their first occurrences. */
  lemma PutOrder(t: Table, prefix: seq<Job>, x: Job)
    requires Represents(t, prefix)
    requires forall k :: k in t.order <==> k in t.entries
    ensures forall p, q :: 0 <= p < q < |Put(t, x).order| ==>
              FirstIndex(prefix + [x], Put(t, x).order[p]) < FirstIndex(prefix + [x], Put(t, x).order[q])
  {
    var jobs := prefix + [x];
    var r := Put(t, x);
    KeysOfSnoc(prefix, x);
    forall p | 0 <= p < |t.order|
      ensures t.order[p] in KeysOf(prefix) && FirstIndex(jobs, t.order[p]) == FirstIndex(prefix, t.order[p])
    {
      FirstIndexSnoc(prefix, x, t.order[p]);
    }
    if KeyOf(x) !in t.entries {
      FirstIndexSnocNew(prefix, x);
      assert r.order == t.order + [KeyOf(x)];
      forall p, q | 0 <= p < q < |r.order|
        ensures FirstIndex(jobs, r.order[p]) < FirstIndex(jobs, r.order[q])
      {
        if q == |t.order| {
          assert r.order[p] == t.order[p];
        } else {
          assert r.order[p] == t.order[p] && r.order[q] == t.order[q];
        }
      }
    }
  }

  /** Two strictly increasing sequences with the same elements are equal. */
  lemma {:induction false} IncreasingUnique(xs: seq<int>, ys: seq<int>)
    requires forall p, q :: 0 <= p < q < |xs| ==> xs[p] < xs[q]
    requires forall p, q :: 0 <= p < q < |ys| ==> ys[p] < ys[q]
    requires forall v :: v in xs <==> v in ys
    ensures xs == ys
  {
    SameElementsBothEmpty(xs, ys);
    if xs != [] {
      HeadsAgree(xs, ys);
      TailsAgree(xs, ys);
      IncreasingUnique(xs[1..], ys[1..]);
      assert xs == [xs[0]] + xs[1..];
      assert ys == [ys[0]] + ys[1..];
    }
  }

  /** Sequences with the same elements are empty together. */
  lemma SameElementsBothEmpty(xs: seq<int>, ys: seq<int>)
    requires forall v :: v in xs <==> v in ys
    ensures xs == [] <==> ys == []
  {
    if xs != [] {
      var v := xs[0];
      assert v in xs;
      assert v in ys;
    }
    if ys != [] {
      var v := ys[0];
      assert v in ys;
      assert v in xs;
    }
  }

  /** Two non-empty strictly increasing sequences with the same elements start alike. */
  lemma HeadsAgree(xs: seq<int>, ys: seq<int>)
    requires xs != [] && ys != []
    requires forall p, q :: 0 <= p < q < |xs| ==> xs[p] < xs[q]
    requires forall p, q :: 0 <= p < q < |ys| ==> ys[p] < ys[q]
    requires forall v :: v in xs <==> v in ys
    ensures xs[0] == ys[0]
  {
    assert xs[0] in xs;
    var q :| 0 <= q < |ys| && ys[q] == xs[0];
    assert ys[0] in ys;
    var p :| 0 <= p < |xs| && xs[p] == ys[0];
    assert xs[0] <= xs[p];
    assert ys[0] <= ys[q];
  }

  /** With equal heads, their tails have the same elements. */
  lemma TailsAgree(xs: seq<int>, ys: seq<int>)
    requires xs != [] && ys != [] && xs[0] == ys[0]
    requires forall p, q :: 0 <= p < q < |xs| ==> xs[p] < xs[q]
    requires forall p, q :: 0 <= p < q < |ys| ==> ys[p] < ys[q]
    requires forall v :: v in xs <==> v in ys
    ensures forall v :: v in xs[1..] <==> v in ys[1..]
  {
    forall v | v in xs[1..] ensures v in ys[1..] {
      var p :| 1 <= p < |xs| && xs[p] == v;
      assert v in xs;
      var q :| 0 <= q < |ys| && ys[q] == v;
      assert q != 0;
      assert ys[1..][q - 1] == v;
    }
    forall v | v in ys[1..] ensures v in xs[1..] {
      var q :| 1 <= q < |ys| && ys[q] == v;
      assert v in ys;
      var p :| 0 <= p < |xs| && xs[p] == v;
      assert p != 0;
      assert xs[1..][p - 1] == v;
    }
  }

  /** The positions of first occurrence of each record's key. */
  function FirstPositions(out: seq<Job>, jobs: seq<Job>): (r: seq<int>)
    requires KeysOf(out) <= KeysOf(jobs)
    ensures |r| == |out|
    ensures forall p :: 0 <= p < |out| ==> r[p] == FirstIndex(jobs, KeyOf(out[p]))
  {
    seq(|out|, p requires 0 <= p < |out| && KeysOf(out) <= KeysOf(jobs) =>
          assert out[p] in out; FirstIndex(jobs, KeyOf(out[p])))
  }

  /** The description determines the result: at most one list is a de-duplication of `jobs`. */
  lemma DedupOfUnique(a: seq<Job>, b: seq<Job>, jobs: seq<Job>)
    requires IsDedupOf(a, jobs) && IsDedupOf(b, jobs)
    ensures a == b
  {
    var fa, fb := FirstPositions(a, jobs), FirstPositions(b, jobs);
    FirstPositionsCovered(a, b, jobs);
    FirstPositionsCovered(b, a, jobs);
    IncreasingUnique(fa, fb);
    forall p | 0 <= p < |a|
      ensures a[p] == b[p]
    {
      assert KeyOf(jobs[fa[p]]) == KeyOf(a[p]);
      assert KeyOf(jobs[fb[p]]) == KeyOf(b[p]);
    }
  }

  /** Two de-duplications of `jobs` use the same first positions. */
  lemma FirstPositionsCovered(a: seq<Job>, b: seq<Job>, jobs: seq<Job>)
    requires IsDedupOf(a, jobs) && IsDedupOf(b, jobs)
    ensures forall v :: v in FirstPositions(a, jobs) ==> v in FirstPositions(b, jobs)
  {
    var fa, fb := FirstPositions(a, jobs), FirstPositions(b, jobs);
    forall v | v in fa ensures v in fb {
      var p :| 0 <= p < |fa| && fa[p] == v;
      var y := a[p];
      assert y in a;
      assert KeyOf(y) in KeysOf(b);
      var x :| x in b && KeyOf(x) == KeyOf(y);
      var q :| 0 <= q < |b| && b[q] == x;
      assert fb[q] == v;
    }
  }

  /** Each value of the table sits at its key's place in the order and is its key's last record. */
  lemma DedupEntries(jobs: seq<Job>)
    ensures |Dedup(jobs)| == |Comprehend(jobs).order|
    ensures forall p :: 0 <= p < |Dedup(jobs)| ==>
              KeyOf(Dedup(jobs)[p]) == Comprehend(jobs).order[p] &&
              Comprehend(jobs).order[p] in KeysOf(jobs) &&
              Dedup(jobs)[p] == jobs[LastIndex(jobs, Comprehend(jobs).order[p])]
  {
    var t := Comprehend(jobs);
    ComprehendRepresents(jobs);
    var out := Dedup(jobs);
    forall p | 0 <= p < |out|
      ensures KeyOf(out[p]) == t.order[p] && t.order[p] in KeysOf(jobs)
      ensures out[p] == jobs[LastIndex(jobs, t.order[p])]
    {
      assert out[p] == t.entries[t.order[p]];
    }
  }

  /**
   * De-duplication keeps every key, once, at the position of its first
   * occurrence and holding its last record. It never lengthens the list.
   */
  lemma DedupCharacterization(jobs: seq<Job>)
    ensures IsDedupOf(Dedup(jobs), jobs)
    ensures |Dedup(jobs)| <= |jobs|
  {
    var t := Comprehend(jobs);
    ComprehendRepresents(jobs);
    ComprehendOrder(jobs);
    DedupEntries(jobs);
    var out := Dedup(jobs);
    forall k | k in KeysOf(jobs) ensures k in KeysOf(out) {
      assert k in t.order;
      var p :| 0 <= p < |t.order| && t.order[p] == k;
      assert out[p] in out;
    }
    forall k | k in KeysOf(out) ensures k in KeysOf(jobs) {
      var x :| x in out && KeyOf(x) == k;
      var p :| 0 <= p < |out| && out[p] == x;
    }
    assert KeysOf(out) == KeysOf(jobs);
    forall p, q | 0 <= p < q < |out|
      ensures FirstIndex(jobs, KeyOf(out[p])) < FirstIndex(jobs, KeyOf(out[q]))
    {
    }
  }

  /** Every record de-duplication returns is one of its input records. */
  lemma DedupRecordsFromInput(jobs: seq<Job>)
    ensures forall j :: j in Dedup(jobs) ==> j in jobs
  {
    DedupCharacterization(jobs);
    var out := Dedup(jobs);
    forall j | j in out ensures j in jobs {
      var p :| 0 <= p < |out| && out[p] == j;
      assert KeyOf(out[p]) in KeysOf(out);
    }
  }

  /** De-duplication is exactly the list its description fixes. */
  lemma DedupIff(out: seq<Job>, jobs: seq<Job>)
    ensures IsDedupOf(out, jobs) <==> out == Dedup(jobs)
  {
    DedupCharacterization(jobs);
    if IsDedupOf(out, jobs) {
      DedupOfUnique(out, Dedup(jobs), jobs);
    }
  }

  /** A list whose keys are already distinct comes back unchanged. */
  lemma DedupOfDistinct(jobs: seq<Job>)
    requires DistinctKeys(jobs)
    ensures Dedup(jobs) == jobs
  {
    forall p | 0 <= p < |jobs|
      ensures FirstIndex(jobs, KeyOf(jobs[p])) == p && LastIndex(jobs, KeyOf(jobs[p])) == p
    {
      assert jobs[p] in jobs;
    }
    DedupIff(jobs, jobs);
  }

  /** De-duplicating twice is de-duplicating once. */
  lemma DedupIdempotent(jobs: seq<Job>)
    ensures Dedup(Dedup(jobs)) == Dedup(jobs)
  {
    DedupCharacterization(jobs);
    DedupOfDistinct(Dedup(jobs));
  }
}
