/**
  The entry table of nslocalized/store.py: `LocalizedString` records and the
  insert-or-merge rule of `StringTable.store`, on the map it keeps from source
  string to entry.
 */
module Entries {
  import opened Wrappers

  /** `LocalizedString(source, target, comment)`; `comment` is `None` or a string. */
  datatype Entry = Entry(source: string, target: string, comment: Option<string>)

  /** Python truthiness of an optional string: present and non-empty. */
  predicate Truthy(c: Option<string>) {
    c.Some? && c.value != ""
  }

  /** The comment an existing entry has after another one is stored onto it. */
  function MergeComment(cur: Option<string>, incoming: Option<string>): Option<string> {
    if Truthy(incoming) then
      if Truthy(cur) then Some(cur.value + "\n" + incoming.value) else incoming
    else cur
  }

  /** Every key names the entry whose source it is. */
  ghost predicate KeyedBySource(m: map<string, Entry>) {
    forall k :: k in m ==> m[k].source == k
  }

  /**
    The map after `store(e)`: an absent source is inserted as `e`; a present
    one keeps its entry's source, takes `e`'s target and merges the comments.
   */
  function Stored(m: map<string, Entry>, e: Entry): (r: map<string, Entry>)
    ensures r.Keys == m.Keys + {e.source}
    ensures forall k :: k in m && k != e.source ==> r[k] == m[k]
    ensures e.source !in m ==> r[e.source] == e
    ensures e.source in m ==>
      r[e.source] == Entry(m[e.source].source, e.target, MergeComment(m[e.source].comment, e.comment))
    ensures KeyedBySource(m) ==> KeyedBySource(r)
  {
    if e.source in m then
      var cur := m[e.source];
      m[e.source := cur.(comment := MergeComment(cur.comment, e.comment), target := e.target)]
    else
      m[e.source := e]
  }

  /** The map after storing `es` one after the other. */
  function StoreAll(m: map<string, Entry>, es: seq<Entry>): map<string, Entry>
    decreases |es|
  {
    if es == [] then m else StoreAll(Stored(m, es[0]), es[1..])
  }

  /** Storing a source that was absent adds exactly that key, mapped to the entry itself. */
  lemma StoreNewSource(m: map<string, Entry>, e: Entry)
    requires e.source !in m
    ensures Stored(m, e) == m[e.source := e]
  {
  }

  /** Comment merge on a present key, case by case. */
  lemma StoreMergesComment(m: map<string, Entry>, e: Entry)
    requires e.source in m
    ensures !Truthy(e.comment) ==> Stored(m, e)[e.source].comment == m[e.source].comment
    ensures Truthy(e.comment) && !Truthy(m[e.source].comment) ==> Stored(m, e)[e.source].comment == e.comment
    ensures Truthy(e.comment) && Truthy(m[e.source].comment) ==>
      Stored(m, e)[e.source].comment == Some(m[e.source].comment.value + "\n" + e.comment.value)
  {
  }

  /** `t[s] = v`: afterwards `t[s] == v`, and an existing comment is kept. */
  lemma SetItemKeepsComment(m: map<string, Entry>, s: string, v: string)
    ensures s in Stored(m, Entry(s, v, None)) && Stored(m, Entry(s, v, None))[s].target == v
    ensures s in m ==> Stored(m, Entry(s, v, None))[s].comment == m[s].comment
  {
  }

  /** Storing a sequence one by one is storing its halves one after the other. */
  lemma {:induction false} StoreAllAppend(m: map<string, Entry>, a: seq<Entry>, b: seq<Entry>)
    ensures StoreAll(m, a + b) == StoreAll(StoreAll(m, a), b)
    decreases |a|
  {
    if a != [] {
      assert (a + b)[1..] == a[1..] + b;
      StoreAllAppend(Stored(m, a[0]), a[1..], b);
    } else {
      assert a + b == b;
    }
  }

  /** A key is present after a run of stores exactly when it was present before or was stored. */
  lemma {:induction false} StoreAllKeys(m: map<string, Entry>, es: seq<Entry>, k: string)
    ensures k in StoreAll(m, es) <==> k in m || exists i :: 0 <= i < |es| && es[i].source == k
    decreases |es|
  {
    if es != [] {
      StoreAllKeys(Stored(m, es[0]), es[1..], k);
      if exists i :: 0 <= i < |es[1..]| && es[1..][i].source == k {
        var i :| 0 <= i < |es[1..]| && es[1..][i].source == k;
        assert es[i + 1].source == k;
      }
      if exists i :: 0 <= i < |es| && es[i].source == k {
        var i :| 0 <= i < |es| && es[i].source == k;
        if i > 0 {
          assert es[1..][i - 1].source == k;
        }
      }
    }
  }

  /** A run of stores keeps every key naming its entry's source. */
  lemma {:induction false} StoreAllKeyed(m: map<string, Entry>, es: seq<Entry>)
    requires KeyedBySource(m)
    ensures KeyedBySource(StoreAll(m, es))
    decreases |es|
  {
    if es != [] {
      StoreAllKeyed(Stored(m, es[0]), es[1..]);
    }
  }
}
