/**
 * The `BTreeMap<String, V>` that the decoder fills for a dictionary,
 * modelled as an association sequence whose keys strictly ascend.
 *
 * Keys are the decoder's strings: one char per input byte, every char
 * below U+0100. Rust orders `String`s by their UTF-8 bytes, and UTF-8
 * preserves code-point order, so comparing the byte sequences
 * lexicographically gives the same order as the source's map.
 */
module OrderedMap {
  import opened Numbers

  /** Lexicographic strict order on byte strings (a proper prefix comes first). */
  predicate Less(a: seq<byte>, b: seq<byte>)
    decreases |a|
  {
    if |a| == 0 then |b| > 0
    else if |b| == 0 then false
    else if a[0] != b[0] then a[0] < b[0]
    else Less(a[1..], b[1..])
  }

  lemma {:induction false} LessIrreflexive(a: seq<byte>)
    ensures !Less(a, a)
    decreases |a|
  {
    if |a| > 0 {
      LessIrreflexive(a[1..]);
    }
  }

  lemma {:induction false} LessTransitive(a: seq<byte>, b: seq<byte>, c: seq<byte>)
    requires Less(a, b) && Less(b, c)
    ensures Less(a, c)
    decreases |a|
  {
    if |a| > 0 && a[0] == b[0] && b[0] == c[0] {
      LessTransitive(a[1..], b[1..], c[1..]);
    }
  }

  lemma {:induction false} LessTotal(a: seq<byte>, b: seq<byte>)
    requires a != b
    ensures Less(a, b) || Less(b, a)
    decreases |a|
  {
    if |a| > 0 && |b| > 0 && a[0] == b[0] {
      assert a == [a[0]] + a[1..] && b == [b[0]] + b[1..];
      LessTotal(a[1..], b[1..]);
    }
  }

  datatype Entry<V> = Entry(key: seq<byte>, value: V)

  /** The keys ascend strictly: the order a `BTreeMap` iterates in, with no key twice. */
  predicate Sorted<V>(es: seq<Entry<V>>) {
    forall i, j :: 0 <= i < j < |es| ==> Less(es[i].key, es[j].key)
  }

  lemma LessThanFirst<V>(es: seq<Entry<V>>, k: seq<byte>)
    requires Sorted(es) && |es| > 0 && Less(k, es[0].key)
    ensures forall j :: 0 <= j < |es| ==> Less(k, es[j].key)
  {
    forall j | 0 < j < |es| ensures Less(k, es[j].key) {
      LessTransitive(k, es[0].key, es[j].key);
    }
  }

  /** `BTreeMap::get`. */
  function Get<V>(es: seq<Entry<V>>, k: seq<byte>): (r: Option<V>)
    ensures r.None? <==> forall e :: e in es ==> e.key != k
    ensures r.Some? ==> Entry(k, r.value) in es
  {
    if |es| == 0 then None
    else if es[0].key == k then Some(es[0].value)
    else
      assert es == [es[0]] + es[1..];
      Get(es[1..], k)
  }

  /** `BTreeMap::insert`: the new value replaces the old one under an existing key. */
  function Insert<V>(es: seq<Entry<V>>, k: seq<byte>, v: V): seq<Entry<V>> {
    if |es| == 0 then [Entry(k, v)]
    else if es[0].key == k then [Entry(k, v)] + es[1..]
    else if Less(k, es[0].key) then [Entry(k, v)] + es
    else [es[0]] + Insert(es[1..], k, v)
  }

  /**
   * Inserting into a sorted map keeps it sorted, adds the new entry, drops
   * only the entry the new one replaces, and grows the map by at most one.
   */
  lemma {:induction false} InsertSpec<V>(es: seq<Entry<V>>, k: seq<byte>, v: V)
    requires Sorted(es)
    ensures var r := Insert(es, k, v);
      && Sorted(r)
      && Entry(k, v) in r
      && (forall e :: e in r ==> e == Entry(k, v) || (e in es && e.key != k))
      && (forall e :: e in es && e.key != k ==> e in r)
      && |es| <= |r| <= |es| + 1
  {
    if |es| == 0 {
    } else if es[0].key == k {
      SortedTail(es);
      LessIrreflexive(k);
      assert forall e :: e in es[1..] ==> e in es;
    } else if Less(k, es[0].key) {
      LessThanFirst(es, k);
      LessIrreflexive(k);
    } else {
      SortedTail(es);
      InsertSpec(es[1..], k, v);
      var tail := Insert(es[1..], k, v);
      LessTotal(k, es[0].key);
      LessThanRest(es, tail, k);
      assert es == [es[0]] + es[1..];
    }
  }

  lemma SortedTail<V>(es: seq<Entry<V>>)
    requires Sorted(es) && |es| > 0
    ensures Sorted(es[1..])
    ensures forall e :: e in es[1..] ==> Less(es[0].key, e.key)
  {
    forall e | e in es[1..] ensures Less(es[0].key, e.key) {
      var i :| 0 <= i < |es[1..]| && es[1..][i] == e;
      assert es[i + 1] == e;
    }
  }

  lemma LessThanRest<V>(es: seq<Entry<V>>, tail: seq<Entry<V>>, k: seq<byte>)
    requires Sorted(es) && |es| > 0 && Less(es[0].key, k) && Sorted(tail)
    requires forall e :: e in tail ==> e.key == k || e in es[1..]
    ensures Sorted([es[0]] + tail)
  {
    SortedTail(es);
    var r := [es[0]] + tail;
    forall i, j | 0 <= i < j < |r| ensures Less(r[i].key, r[j].key) {
      if i > 0 {
        assert r[i] == tail[i - 1] && r[j] == tail[j - 1];
      } else {
        assert r[j] == tail[j - 1] && r[j] in tail;
      }
    }
  }

  /** After inserting `k`, looking `k` up gives the value inserted last. */
  lemma {:induction false} GetInsertSame<V>(es: seq<Entry<V>>, k: seq<byte>, v: V)
    requires Sorted(es)
    ensures Get(Insert(es, k, v), k) == Some(v)
  {
    if |es| > 0 && es[0].key != k && !Less(k, es[0].key) {
      GetInsertSame(es[1..], k, v);
    }
  }

  /** Inserting `k` leaves every other key's value as it was. */
  lemma {:induction false} GetInsertOther<V>(es: seq<Entry<V>>, k: seq<byte>, v: V, k': seq<byte>)
    requires Sorted(es) && k' != k
    ensures Get(Insert(es, k, v), k') == Get(es, k')
  {
    if |es| > 0 && es[0].key != k && !Less(k, es[0].key) {
      GetInsertOther(es[1..], k, v, k');
    }
  }

  /** A key above every present key is appended at the end. */
  lemma {:induction false} InsertGreatest<V>(es: seq<Entry<V>>, k: seq<byte>, v: V)
    requires Sorted(es)
    requires forall i :: 0 <= i < |es| ==> Less(es[i].key, k)
    ensures Insert(es, k, v) == es + [Entry(k, v)]
  {
    if |es| > 0 {
      LessIrreflexive(k);
      assert es[0].key != k;
      if Less(k, es[0].key) {
        LessTransitive(k, es[0].key, k);
        LessIrreflexive(k);
      }
      InsertGreatest(es[1..], k, v);
      assert es == [es[0]] + es[1..];
    }
  }

  /** In a sorted map a key occurs once, so `get` finds the value stored under it. */
  lemma {:induction false} GetFound<V>(es: seq<Entry<V>>, k: seq<byte>, v: V)
    requires Sorted(es) && Entry(k, v) in es
    ensures Get(es, k) == Some(v)
  {
    if es[0].key == k {
      if es[0] != Entry(k, v) {
        var i :| 0 < i < |es| && es[i] == Entry(k, v);
        LessIrreflexive(k);
      }
    } else {
      SortedTail(es);
      GetFound(es[1..], k, v);
    }
  }
}
