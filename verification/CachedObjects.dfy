/**
  What an object key answers while its row changes. This joins the coherence protocol to the
  object cache: `rows(v)` is the source's row at version v.
 */
module CachedObjects {
  import opened Wrappers
  import opened ObjectCaches
  import C = Coherence

  /** The text in the key after these writes. A row without a text is never written. */
  function KeyText<A>(encode: Encoder<A>, rows: nat -> Row<A>, writes: seq<C.Write>): Option<string> {
    if writes == [] then None else StoredText(encode, rows(writes[|writes| - 1].tag))
  }

  /**
    End to end: once nothing is on its way for a row, no save straddled a mutation and no delete
    was lost, a read answers what the source answers now, from Redis or not, if the row is readable.
   */
  lemma {:induction false} DrainedAnswersAreCurrent<A, T>(
      encode: Encoder<A>, decode: Decoder<T>, rows: nat -> Row<A>, run: seq<C.Action>, id: string, net: Network)
    requires var w := C.After(C.ObjectKeys, run);
             && C.Drained(w, id) && C.NoStraddlingSave(w, id) && C.NoLostDelete(w, id)
             && Readable(encode, decode, rows(C.Version(w, id)))
    ensures var w := C.After(C.ObjectKeys, run);
            var cached := if id in w.cache then KeyText(encode, rows, w.cache[id]) else None;
            GetAnswer(encode, decode, cached, rows(C.Version(w, id)), net) ==
            FromSource(encode, decode, rows(C.Version(w, id)))
  {
    hide C.After;
    var w := C.After(C.ObjectKeys, run);
    C.DrainedKeyExact(C.ObjectKeys, run, id);
    if id in w.cache && w.cache[id] != [] {
      var last := w.cache[id][|w.cache[id]| - 1];
      assert last in w.cache[id] && last.tag == C.Version(w, id);
      var text := StoredText(encode, rows(last.tag));
      if text.Some? {
        HitAgreesExactly(encode, decode, rows(last.tag), text.value);
      }
    }
  }

  /** Conversely, in any state a key that is not current holds the text of an older version of the row. */
  lemma {:induction false} StaleAnswerIsOlder<A>(
      encode: Encoder<A>, rows: nat -> Row<A>, run: seq<C.Action>, id: string)
    returns (v: nat)
    requires var w := C.After(C.ObjectKeys, run); id in w.cache && !C.Current(w, id)
    ensures var w := C.After(C.ObjectKeys, run);
            v < C.Version(w, id) && KeyText(encode, rows, w.cache[id]) == StoredText(encode, rows(v))
  {
    var w := C.After(C.ObjectKeys, run);
    C.Reachable(C.ObjectKeys, run);
    OneWrite(run, id);
    var wr := w.cache[id][0];
    assert wr in w.cache[id] && C.WriteSound(w, id, wr);
    v := wr.tag;
  }

  /** An object key holds one write: SET replaces what was there. */
  lemma {:induction false} OneWrite(run: seq<C.Action>, id: string)
    ensures var w := C.After(C.ObjectKeys, run); id in w.cache ==> |w.cache[id]| == 1
  {
    if run == [] {
    } else {
      OneWrite(run[..|run| - 1], id);
    }
  }
}
