/**
 * Notes and the per-user note list: the `Note` record and the filter that
 * the delete handler applies to a user's list.
 */
module Notes {
  import opened Uint32

  /** One note: its id, taken from the store's counter, and its text. */
  datatype Note = Note(id: u32, text: string)

  /** Does some note in `ns` carry the id `id`? */
  predicate HasId(ns: seq<Note>, id: u32) {
    exists i :: 0 <= i < |ns| && ns[i].id == id
  }

  /**
   * The ids of `ns` are strictly increasing in list order and all below
   * `bound` (the value the counter will hand out next). Lists built only by
   * appending fresh counter values and by deleting keep this shape.
   */
  predicate WellNumbered(ns: seq<Note>, bound: int) {
    && (forall i :: 0 <= i < |ns| ==> ns[i].id as int < bound)
    && (forall i, j :: 0 <= i < j < |ns| ==> ns[i].id < ns[j].id)
  }

  /**
   * `ns` without every note whose id is `id`, the others kept in their
   * original order.
   */
  function Without(ns: seq<Note>, id: u32): (r: seq<Note>)
    ensures |r| <= |ns|
    ensures forall n :: n in r <==> n in ns && n.id != id
  {
    if ns == [] then []
    else (if ns[0].id != id then [ns[0]] else []) + Without(ns[1..], id)
  }

  /** Filtering distributes over concatenation, so relative order is kept. */
  lemma {:induction false} WithoutConcat(a: seq<Note>, b: seq<Note>, id: u32)
    ensures Without(a + b, id) == Without(a, id) + Without(b, id)
  {
    if a == [] {
      assert a + b == b;
    } else {
      assert (a + b)[0] == a[0];
      assert (a + b)[1..] == a[1..] + b;
      WithoutConcat(a[1..], b, id);
    }
  }

  /** One more note at the end is kept exactly when its id differs. */
  lemma WithoutSnoc(ns: seq<Note>, n: Note, id: u32)
    ensures Without(ns + [n], id) == Without(ns, id) + (if n.id != id then [n] else [])
  {
    WithoutConcat(ns, [n], id);
    assert [n][1..] == [];
  }

  /** Deleting an id that no note carries leaves the list as it was. */
  lemma {:induction false} WithoutAbsent(ns: seq<Note>, id: u32)
    requires !HasId(ns, id)
    ensures Without(ns, id) == ns
  {
    if ns != [] {
      assert ns[0].id != id;
      assert !HasId(ns[1..], id) by {
        forall i | 0 <= i < |ns[1..]| ensures ns[1..][i].id != id {
          assert ns[1..][i] == ns[i + 1];
        }
      }
      WithoutAbsent(ns[1..], id);
      assert ns == [ns[0]] + ns[1..];
    }
  }

  /** Deleting the same id twice is the same as deleting it once. */
  lemma WithoutIdempotent(ns: seq<Note>, id: u32)
    ensures Without(Without(ns, id), id) == Without(ns, id)
  {
    var r := Without(ns, id);
    assert !HasId(r, id) by {
      forall i | 0 <= i < |r| ensures r[i].id != id {
        assert r[i] in r;
      }
    }
    WithoutAbsent(r, id);
  }

  /** The tail of a well numbered list is well numbered. */
  lemma TailWellNumbered(ns: seq<Note>, bound: int)
    requires ns != [] && WellNumbered(ns, bound)
    ensures WellNumbered(ns[1..], bound)
  {
    forall i, j | 0 <= i < j < |ns[1..]| ensures ns[1..][i].id < ns[1..][j].id {
      assert ns[1..][i] == ns[i + 1] && ns[1..][j] == ns[j + 1];
    }
  }

  /** A note below every id of a well numbered list can head it. */
  lemma ConsWellNumbered(n: Note, ns: seq<Note>, bound: int)
    requires WellNumbered(ns, bound) && n.id as int < bound
    requires forall k :: 0 <= k < |ns| ==> n.id < ns[k].id
    ensures WellNumbered([n] + ns, bound)
  {
    var r := [n] + ns;
    forall i, j | 0 <= i < j < |r| ensures r[i].id < r[j].id {
      assert r[j] == ns[j - 1];
      if i > 0 {
        assert r[i] == ns[i - 1];
      }
    }
  }

  /** Deleting keeps a list well numbered. */
  lemma {:induction false} WithoutWellNumbered(ns: seq<Note>, id: u32, bound: int)
    requires WellNumbered(ns, bound)
    ensures WellNumbered(Without(ns, id), bound)
  {
    if ns != [] {
      var rest := Without(ns[1..], id);
      TailWellNumbered(ns, bound);
      WithoutWellNumbered(ns[1..], id, bound);
      if ns[0].id != id {
        forall k | 0 <= k < |rest| ensures ns[0].id < rest[k].id {
          assert rest[k] in ns[1..];
          var m :| 0 <= m < |ns[1..]| && ns[1..][m] == rest[k];
          assert ns[1..][m] == ns[m + 1];
        }
        ConsWellNumbered(ns[0], rest, bound);
      } else {
        assert Without(ns, id) == [] + rest;
      }
    }
  }

  /**
   * In a well numbered list at most one note carries a given id, so
   * deleting removes exactly one note if the id is present and none if not.
   */
  lemma {:induction false} WithoutRemovesAtMostOne(ns: seq<Note>, id: u32, bound: int)
    requires WellNumbered(ns, bound)
    ensures |Without(ns, id)| == if HasId(ns, id) then |ns| - 1 else |ns|
  {
    if ns == [] {
    } else if ns[0].id == id {
      assert !HasId(ns[1..], id) by {
        forall i | 0 <= i < |ns[1..]| ensures ns[1..][i].id != id {
          assert ns[1..][i] == ns[i + 1];
        }
      }
      WithoutAbsent(ns[1..], id);
    } else {
      TailWellNumbered(ns, bound);
      WithoutRemovesAtMostOne(ns[1..], id, bound);
      assert HasId(ns, id) <==> HasId(ns[1..], id) by {
        if HasId(ns, id) {
          var i :| 0 <= i < |ns| && ns[i].id == id;
          assert ns[1..][i - 1] == ns[i];
        }
        if HasId(ns[1..], id) {
          var i :| 0 <= i < |ns[1..]| && ns[1..][i].id == id;
          assert ns[1..][i] == ns[i + 1];
        }
      }
    }
  }

  /** Appending a note numbered with the counter keeps a list well numbered. */
  lemma AppendWellNumbered(ns: seq<Note>, counter: u32, text: string)
    requires WellNumbered(ns, counter as int)
    ensures WellNumbered(ns + [Note(counter, text)], counter as int + 1)
  {
  }

  /** Deleting the note just appended, under its fresh id, restores the list. */
  lemma DeleteUndoesAppend(ns: seq<Note>, counter: u32, text: string)
    requires WellNumbered(ns, counter as int)
    ensures Without(ns + [Note(counter, text)], counter) == ns
  {
    WithoutConcat(ns, [Note(counter, text)], counter);
    assert !HasId(ns, counter);
    WithoutAbsent(ns, counter);
    assert [Note(counter, text)][1..] == [];
  }
}
