/** setCountryDB as the in-place method it is, and its place in the machine of interleaved steps. */
module CountryDb {
  import opened Wrappers
  import opened Refresh

  /** The country database field of the module, and how often each reader has been closed. */
  class CountrySlot {
    var countryDB: Option<Reader>
    var closes: map<Reader, nat>

    constructor ()
      ensures countryDB == None && closes == map[]
    {
      countryDB, closes := None, map[];
    }

    function Closes(r: Reader): nat
      reads this
    {
      if r in closes then closes[r] else 0
    }

    /** What is current has not been closed. */
    ghost predicate CurrentIsOpen()
      reads this
    {
      countryDB.Some? ==> Closes(countryDB.value) == 0
    }

    /**
     * Swaps the reader, then closes the one before: what is current is open exactly if it was handed
     * in open and new.
     */
    method SetCountryDB(next: Option<Reader>)
      modifies this
      ensures countryDB == next
      ensures forall r: Reader :: Closes(r) == old(Closes(r)) + One(old(countryDB) == Some(r))
      ensures CurrentIsOpen() <==> (next.Some? ==> old(Closes(next.value)) == 0 && old(countryDB) != next)
    {
      var prev := countryDB;
      countryDB := next;
      if prev.Some? {
        closes := closes[prev.value := Closes(prev.value) + 1];
      }
    }
  }

  /** What the first three steps of one call leave, with nothing in between. */
  lemma SetStages(st: State, setter: Setter)
    requires st.SetPcOf(setter).Some? && st.SetPcOf(setter).value.WantLock?
    ensures var next, s1 := st.SetPcOf(setter).value.next, DoSet(st, setter);
            s1.SetPcOf(setter) == Some(Swapping(next)) && s1.country == st.country
            && (forall r: Reader :: s1.Closes(r) == st.Closes(r)) && s1.writer == Some(setter)
            && var s2 := DoSet(s1, setter);
               s2.SetPcOf(setter) == Some(Unlocking(st.country)) && s2.country == next
               && (forall r: Reader :: s2.Closes(r) == st.Closes(r)) && s2.writer == Some(setter)
               && var s3 := DoSet(s2, setter);
                  s3.SetPcOf(setter) == Some(Closing(st.country)) && s3.country == next
                  && (forall r: Reader :: s3.Closes(r) == st.Closes(r)) && s3.writer == None
  {
    hide DoSet, State.SetPcOf, State.Closes;
    SetEffect(st, setter);
    SetEffect(DoSet(st, setter), setter);
    SetEffect(DoSet(DoSet(st, setter), setter), setter);
  }

  /** All four steps of one call with nothing in between. */
  function SetAtOnce(st: State, setter: Setter): State
    requires st.SetPcOf(setter).Some? && st.SetPcOf(setter).value.WantLock?
  {
    SetStages(st, setter);
    DoSet(DoSet(DoSet(DoSet(st, setter), setter), setter), setter)
  }

  /**
   * Run without interruption, the steps of a call have the effect of the method: the new reader
   * is current, the old one closed once more, nothing else closed, the lock free and the call over.
   */
  lemma UninterruptedSet(st: State, setter: Setter)
    requires st.SetPcOf(setter).Some? && st.SetPcOf(setter).value.WantLock?
    ensures var next, after := st.SetPcOf(setter).value.next, SetAtOnce(st, setter);
            && after.country == next
            && (forall r: Reader :: after.Closes(r) == st.Closes(r) + One(st.country == Some(r)))
            && after.writer == None && after.SetPcOf(setter) == None
  {
    hide DoSet, State.SetPcOf, State.Closes;
    SetStages(st, setter);
    SetEffect(DoSet(DoSet(DoSet(st, setter), setter), setter), setter);
  }
}
