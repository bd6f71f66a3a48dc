/** A one-word mailbox: `store` overwrites it, `swap(0)` empties it and returns what was there. */
module Mailbox {

  /** `value` is the word itself; `stored` are all words ever stored, `received` the non-zero words that swaps
      returned, and `picks` says of each of those which store it came from. */
  datatype Slot = Slot(value: bv64, stored: seq<bv64>, received: seq<bv64>, picks: seq<nat>)
  {
    function Store(v: bv64): Slot {
      this.(value := v, stored := stored + [v])
    }

    function Swap(): Slot {
      if value == 0 || stored == [] then this.(value := 0)
      else Slot(0, stored, received + [value], picks + [|stored| - 1])
    }
  }

  const EMPTY := Slot(0, [], [], [])

  ghost predicate Increasing(s: seq<nat>) {
    forall i, j :: 0 <= i < j < |s| ==> s[i] < s[j]
  }

  /** Received words are stored words, in the order of the stores, each store received at most once; and a word
      still in the mailbox is the last one stored, and was not received. */
  ghost predicate InOrder(s: Slot) {
    && |s.picks| == |s.received| && Increasing(s.picks)
    && (forall i :: 0 <= i < |s.picks| ==> s.picks[i] < |s.stored| && s.received[i] == s.stored[s.picks[i]] != 0)
    && (s.value != 0 ==>
          && s.stored != [] && s.value == s.stored[|s.stored| - 1]
          && (s.picks == [] || s.picks[|s.picks| - 1] < |s.stored| - 1))
  }

  lemma StoreInOrder(s: Slot, v: bv64)
    requires InOrder(s)
    ensures InOrder(s.Store(v))
  {
  }

  lemma SwapInOrder(s: Slot)
    requires InOrder(s)
    ensures InOrder(s.Swap()) && s.Swap().value == 0
    ensures s.value != 0 ==> s.Swap().received == s.received + [s.value]
    ensures s.value == 0 ==> s.Swap().received == s.received
  {
    if s.value != 0 {
      var t := s.Swap();
      forall i, j | 0 <= i < j < |t.picks| ensures t.picks[i] < t.picks[j] {
        if j == |s.picks| && i < |s.picks| - 1 { assert s.picks[i] < s.picks[|s.picks| - 1]; }
      }
    }
  }
}
