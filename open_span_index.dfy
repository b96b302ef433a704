/**
 * The open-span table of the span aggregator
 * (include/gauge/span_aggregator.hpp, `OpenSpan` and `open_spans`).
 *
 * The boost multi-index container is modelled as a sequence of entries in
 * the container's iteration order. Lookups by a key return the first entry
 * in that order that has the key; for the two unique keys that is the only
 * one, for the non-unique parent-id key it stands for the "some entry" that
 * a hashed_non_unique lookup returns.
 */
module SpanIndex {
  import opened Base
  import opened Wrappers

  /** An open call: the cookie of its frame and the span that currently represents it. */
  datatype OpenSpan = OpenSpan(cookie: U64, span: Span)

  /**
   * The three keys of the container. The cookie is a member of the entry;
   * the id and parent-id keys are extracted from the stored span.
   */
  datatype Key = ByCookie(cookie: U64) | ById(id: Ident) | ByParentId(parentId: Ident)

  predicate Matches(o: OpenSpan, key: Key)
  {
    match key
    case ByCookie(c) => o.cookie == c
    case ById(id) => o.span.id == id
    case ByParentId(p) => o.span.parentId == p
  }

  type Index = seq<OpenSpan>

  /** The container's invariant: cookies are unique and span ids are unique; parent ids may repeat. */
  ghost predicate UniqueKeys(ix: Index)
  {
    forall i, j :: 0 <= i < j < |ix| ==> ix[i].cookie != ix[j].cookie && ix[i].span.id != ix[j].span.id
  }

  /** Every entry of `a` is an entry of `b`. */
  ghost predicate SubIndex(a: Index, b: Index)
  {
    forall k :: 0 <= k < |a| ==> a[k] in b
  }

  /** `get<tag>().find(key)`: the position of the first entry with the key, if any. */
  function Find(ix: Index, key: Key): (r: Option<nat>)
    ensures r.Some? ==> r.value < |ix| && Matches(ix[r.value], key)
    ensures r.None? <==> forall j :: 0 <= j < |ix| ==> !Matches(ix[j], key)
    decreases |ix|
  {
    if |ix| == 0 then None
    else if Matches(ix[0], key) then Some(0)
    else match Find(ix[1..], key)
      case None => None
      case Some(i) => Some(i + 1)
  }

  /** The position found is the first one holding the key. */
  lemma {:induction false} FindIsFirst(ix: Index, key: Key)
    requires Find(ix, key).Some?
    ensures forall j :: 0 <= j < Find(ix, key).value ==> !Matches(ix[j], key)
    decreases |ix|
  {
    if !Matches(ix[0], key) {
      FindIsFirst(ix[1..], key);
    }
  }

  /** Under the container's invariant a unique key is found exactly where it is stored. */
  lemma FindUnique(ix: Index, k: nat)
    requires UniqueKeys(ix) && k < |ix|
    ensures Find(ix, ById(ix[k].span.id)) == Some(k)
    ensures Find(ix, ByCookie(ix[k].cookie)) == Some(k)
  {
  }

  /** Would entry `o`, stored at position `i` (appended when `i == |ix|`), share a unique key with another entry? */
  predicate Clashes(ix: Index, i: nat, o: OpenSpan)
  {
    exists j :: 0 <= j < |ix| && j != i && (ix[j].cookie == o.cookie || ix[j].span.id == o.span.id)
  }

  /**
   * `replace(it, o)`: the entry at position `i` becomes `o`, keeping its
   * place; when `o` would share a unique key with another entry the
   * container refuses the replacement and stays as it is.
   */
  function Replace(ix: Index, i: nat, o: OpenSpan): (r: Index)
    requires i < |ix|
    ensures |r| == |ix|
  {
    if Clashes(ix, i, o) then ix else ix[i := o]
  }

  /**
   * A replacement keeps the container's invariant, and every entry
   * afterwards is an old entry or the new one; it takes effect exactly when
   * the new entry clashes with no other.
   */
  lemma ReplaceFacts(ix: Index, i: nat, o: OpenSpan)
    requires i < |ix|
    ensures var r := Replace(ix, i, o);
      && (UniqueKeys(ix) ==> UniqueKeys(r))
      && (forall k :: 0 <= k < |r| ==> r[k] in ix || r[k] == o)
      && (r[i] == o <==> !Clashes(ix, i, o) || ix[i] == o)
  {
  }

  /**
   * `emplace(cookie, span)`: the entry is added at the end of the
   * iteration order unless it would share a unique key with an entry
   * already there, in which case nothing is inserted.
   */
  function Emplace(ix: Index, o: OpenSpan): (r: Index)
    ensures |r| == |ix| || |r| == |ix| + 1
  {
    if Clashes(ix, |ix|, o) then ix else ix + [o]
  }

  /**
   * An insertion keeps the container's invariant and the old entries in
   * their order; it adds the entry exactly when it clashes with none.
   */
  lemma EmplaceFacts(ix: Index, o: OpenSpan)
    ensures var r := Emplace(ix, o);
      && (UniqueKeys(ix) ==> UniqueKeys(r))
      && r[..|ix|] == ix
      && (|r| == |ix| + 1 <==> !Clashes(ix, |ix|, o))
      && (|r| == |ix| + 1 ==> r[|ix|] == o)
  {
    var r := Emplace(ix, o);
    if !Clashes(ix, |ix|, o) {
      assert r[..|ix|] == ix;
    }
  }

  /** `get<by_id>().erase(id)`: the entry with that id leaves the container, the others keep their order. */
  function EraseById(ix: Index, id: Ident): (r: Index)
    ensures Find(ix, ById(id)).None? ==> r == ix
    ensures Find(ix, ById(id)).Some? ==> |r| == |ix| - 1
  {
    match Find(ix, ById(id))
    case None => ix
    case Some(i) => ix[..i] + ix[i + 1..]
  }

  /** Erasing by id keeps the other entries in their order. */
  lemma EraseByIdShifts(ix: Index, id: Ident, i: nat)
    requires Find(ix, ById(id)) == Some(i)
    ensures var r := EraseById(ix, id);
      forall k :: 0 <= k < |r| ==> r[k] == (if k < i then ix[k] else ix[k + 1])
  {
  }

  /** Erasing by id leaves only entries that were there before. */
  lemma EraseByIdKeeps(ix: Index, id: Ident)
    ensures SubIndex(EraseById(ix, id), ix)
  {
    var r := EraseById(ix, id);
    match Find(ix, ById(id))
    case None =>
    case Some(i) =>
      EraseByIdShifts(ix, id, i);
      forall k | 0 <= k < |r| ensures r[k] in ix {
        if k < i { assert r[k] == ix[k]; } else { assert r[k] == ix[k + 1]; }
      }
  }

  /** Erasing by id keeps the container's invariant, and no entry with that id is left. */
  lemma EraseByIdUnique(ix: Index, id: Ident)
    requires UniqueKeys(ix)
    ensures var r := EraseById(ix, id); UniqueKeys(r) && Find(r, ById(id)).None?
  {
    var r := EraseById(ix, id);
    match Find(ix, ById(id))
    case None =>
    case Some(i) =>
      EraseByIdShifts(ix, id, i);
      forall a, b | 0 <= a < b < |r|
        ensures r[a].cookie != r[b].cookie && r[a].span.id != r[b].span.id
      {
        var a' := if a < i then a else a + 1;
        var b' := if b < i then b else b + 1;
        assert r[a] == ix[a'] && r[b] == ix[b'] && a' < b';
      }
      forall k | 0 <= k < |r| ensures r[k].span.id != id {
        var k' := if k < i then k else k + 1;
        assert r[k] == ix[k'] && k' != i;
      }
  }
}
