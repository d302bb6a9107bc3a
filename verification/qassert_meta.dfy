/** The QASSERT description registry (qassert-meta.c): a process-wide slot
    for one unknown-QASSERT callback, and the lookup that answers from the
    internal table first and from that callback only when the table has no
    row for the requested (module, id). */
module QAssertMeta {
  import opened QAssertMetaTypes
  import opened QAssertMetaData

  /** The table search: rows are visited in declaration order, the first
      row matching (module, id) answers, and the scan gives up at the first
      sentinel row (or at the end of `t`).

      The body of QAssertMetaGetDescription leaves this search as a TODO
      (qassert-meta.c:19). The header (qassert-meta.h:28-42) says only that
      the assertion is identified by module and id and that the callback is
      for an unknown pair, and the tests (qassert-meta-lib-tests.cpp:79-120)
      require the known pairs to be found; which of several matching rows
      wins is this model's choice (in the qpcpp table only one row matches
      any key). */
  function Lookup(t: seq<Entry>, moduleName: string, id: int): (r: Option<Description>)
    decreases |t|
  {
    if |t| == 0 || IsSentinel(t[0]) then None
    else if Matches(t[0], moduleName, id) then Some(t[0].description)
    else Lookup(t[1..], moduleName, id)
  }

  /** First match wins: a matching row with no sentinel and no other match
      before it is the one whose description comes back, whatever later
      rows share its key. */
  lemma {:induction false} LookupIsFirstMatch(t: seq<Entry>, moduleName: string, id: int, i: nat)
    requires i < |t| && Matches(t[i], moduleName, id)
    requires forall j | 0 <= j < i :: !IsSentinel(t[j]) && !Matches(t[j], moduleName, id)
    ensures Lookup(t, moduleName, id) == Some(t[i].description)
  {
    if i > 0 {
      assert !IsSentinel(t[0]) && !Matches(t[0], moduleName, id);
      assert forall j | 0 <= j < i - 1 :: t[1..][j] == t[j + 1];
      LookupIsFirstMatch(t[1..], moduleName, id, i - 1);
    }
  }

  /** Whatever the search returns is the description of a row that matches
      the requested key, reached before any sentinel. */
  lemma {:induction false} LookupSound(t: seq<Entry>, moduleName: string, id: int)
    ensures Lookup(t, moduleName, id).Some? ==>
      exists i | 0 <= i < |t| :: Matches(t[i], moduleName, id) &&
        Lookup(t, moduleName, id).value == t[i].description &&
        forall j | 0 <= j < i :: !IsSentinel(t[j])
  {
    if |t| > 0 && !IsSentinel(t[0]) && !Matches(t[0], moduleName, id) {
      LookupSound(t[1..], moduleName, id);
      if Lookup(t, moduleName, id).Some? {
        var i :| 0 <= i < |t[1..]| && Matches(t[1..][i], moduleName, id) &&
          Lookup(t[1..], moduleName, id).value == t[1..][i].description &&
          forall j | 0 <= j < i :: !IsSentinel(t[1..][j]);
        assert forall j | 1 <= j < i + 1 :: t[j] == t[1..][j - 1];
        assert Matches(t[i + 1], moduleName, id);
      }
    } else if Lookup(t, moduleName, id).Some? {
      assert Matches(t[0], moduleName, id);
    }
  }

  /** On a terminated table the search misses exactly when no row matches. */
  lemma {:induction false} LookupMiss(t: seq<Entry>, moduleName: string, id: int)
    requires Terminated(t)
    ensures Lookup(t, moduleName, id).None? <==> forall i | 0 <= i < |t| :: !Matches(t[i], moduleName, id)
  {
    if Lookup(t, moduleName, id).None? {
      forall i | 0 <= i < |t| ensures !Matches(t[i], moduleName, id) {
        if Matches(t[i], moduleName, id) {
          var k := FirstMatch(t, moduleName, id, i);
          LookupIsFirstMatch(t, moduleName, id, k);
        }
      }
    } else {
      LookupSound(t, moduleName, id);
    }
  }

  /** The earliest matching row, given that row `i` matches. */
  lemma {:induction false} FirstMatch(t: seq<Entry>, moduleName: string, id: int, i: nat) returns (k: nat)
    requires Terminated(t) && i < |t| && Matches(t[i], moduleName, id)
    ensures k <= i && Matches(t[k], moduleName, id)
    ensures forall j | 0 <= j < k :: !IsSentinel(t[j]) && !Matches(t[j], moduleName, id)
    decreases i
  {
    if exists j | 0 <= j < i :: Matches(t[j], moduleName, id) {
      var j :| 0 <= j < i && Matches(t[j], moduleName, id);
      k := FirstMatch(t, moduleName, id, j);
    } else {
      k := i;
    }
  }

  /** When no two real rows of a terminated table share a key, first-match
      and any-match agree: every matching row is the one found. */
  lemma LookupAnyMatch(t: seq<Entry>, moduleName: string, id: int, i: nat)
    requires Terminated(t) && DistinctKeys(t)
    requires i < |t| && Matches(t[i], moduleName, id)
    ensures Lookup(t, moduleName, id) == Some(t[i].description)
  {
    var k := FirstMatch(t, moduleName, id, i);
    if k < i {
      assert SameKey(t[k], t[i]);
    }
    LookupIsFirstMatch(t, moduleName, id, k);
  }

  /** Every real row of the table is found under its own key, with its own
      description, and that description has a brief. */
  lemma EveryRowDescribed()
    ensures forall i | 0 <= i < |Table| - 1 ::
      Table[i].moduleName.Some? && Table[i].description.brief.Some? &&
      Lookup(Table, Table[i].moduleName.value, Table[i].id) == Some(Table[i].description)
  {
    TableWellFormed();
    forall i | 0 <= i < |Table| - 1
      ensures Table[i].moduleName.Some? && Table[i].description.brief.Some? &&
        Lookup(Table, Table[i].moduleName.value, Table[i].id) == Some(Table[i].description)
    {
      assert Table[..|Table| - 1][i] == Table[i];
      LookupAnyMatch(Table, Table[i].moduleName.value, Table[i].id, i);
    }
  }

  predicate Known(moduleName: string, id: int) {
    Lookup(Table, moduleName, id).Some?
  }

  /** Row `k` of the table is found under its own key. */
  lemma RowFound(k: nat)
    requires k < |Table| - 1
    ensures Table[k].moduleName.Some? && Known(Table[k].moduleName.value, Table[k].id)
  {
    EveryRowDescribed();
  }

  /** The tested "qf_actq" rows are found. */
  lemma ActqRowsKnown()
    ensures Known("qf_actq", 102) && Known("qf_actq", 190) && Known("qf_actq", 202)
    ensures Known("qf_actq", 201) && Known("qf_actq", 310) && Known("qf_actq", 400)
  {
    assert Known("qf_actq", 102) by { RowFound(k := 0); assert Table[0] == ActqRows[0]; }
    assert Known("qf_actq", 190) by { RowFound(k := 1); assert Table[1] == ActqRows[1]; }
    assert Known("qf_actq", 202) by { RowFound(k := 2); assert Table[2] == ActqRows[2]; }
    assert Known("qf_actq", 201) by { RowFound(k := 3); assert Table[3] == ActqRows[3]; }
    assert Known("qf_actq", 310) by { RowFound(k := 4); assert Table[4] == ActqRows[4]; }
    assert Known("qf_actq", 400) by { RowFound(k := 5); assert Table[5] == ActqRows[5]; }
  }

  /** The tested "qep_hsm" and "qf_defer" rows are found. */
  lemma HsmAndDeferRowsKnown()
    ensures Known("qep_hsm", 200) && Known("qep_hsm", 210) && Known("qep_hsm", 220)
    ensures Known("qep_hsm", 290) && Known("qf_defer", 210)
  {
    assert Known("qep_hsm", 200) by { RowFound(k := 6); assert Table[6] == HsmRows[0]; }
    assert Known("qep_hsm", 210) by { RowFound(k := 7); assert Table[7] == HsmRows[1]; }
    assert Known("qep_hsm", 220) by { RowFound(k := 8); assert Table[8] == HsmRows[2]; }
    assert Known("qep_hsm", 290) by { RowFound(k := 9); assert Table[9] == HsmRows[3]; }
    assert Known("qf_defer", 210) by { RowFound(k := 10); assert Table[10] == DeferRows[0]; }
  }

  /** The tested "qf_dyn" rows are found. */
  lemma DynRowsKnown()
    ensures Known("qf_dyn", 200) && Known("qf_dyn", 201) && Known("qf_dyn", 400)
    ensures Known("qf_dyn", 300) && Known("qf_dyn", 320) && Known("qf_dyn", 402)
    ensures Known("qf_dyn", 410) && Known("qf_dyn", 502) && Known("qf_dyn", 602)
  {
    assert Known("qf_dyn", 200) by { RowFound(k := 11); assert Table[11] == DynRows[0]; }
    assert Known("qf_dyn", 201) by { RowFound(k := 12); assert Table[12] == DynRows[1]; }
    assert Known("qf_dyn", 400) by { RowFound(k := 13); assert Table[13] == DynRows[2]; }
    assert Known("qf_dyn", 300) by { RowFound(k := 14); assert Table[14] == DynRows[3]; }
    assert Known("qf_dyn", 320) by { RowFound(k := 15); assert Table[15] == DynRows[4]; }
    assert Known("qf_dyn", 402) by { RowFound(k := 16); assert Table[16] == DynRows[5]; }
    assert Known("qf_dyn", 410) by { RowFound(k := 17); assert Table[17] == DynRows[6]; }
    assert Known("qf_dyn", 502) by { RowFound(k := 18); assert Table[18] == DynRows[7]; }
    assert Known("qf_dyn", 602) by { RowFound(k := 19); assert Table[19] == DynRows[8]; }
  }

  /** The tested "qf_mem" rows are found. */
  lemma MemRowsKnown()
    ensures Known("qf_mem", 100) && Known("qf_mem", 110) && Known("qf_mem", 300)
    ensures Known("qf_mem", 302) && Known("qf_mem", 320) && Known("qf_mem", 330)
    ensures Known("qf_mem", 200)
  {
    assert Known("qf_mem", 100) by { RowFound(k := 20); assert Table[20] == MemRows[0]; }
    assert Known("qf_mem", 110) by { RowFound(k := 21); assert Table[21] == MemRows[1]; }
    assert Known("qf_mem", 300) by { RowFound(k := 22); assert Table[22] == MemRows[2]; }
    assert Known("qf_mem", 302) by { RowFound(k := 23); assert Table[23] == MemRows[3]; }
    assert Known("qf_mem", 320) by { RowFound(k := 24); assert Table[24] == MemRows[4]; }
    assert Known("qf_mem", 330) by { RowFound(k := 25); assert Table[25] == MemRows[5]; }
    assert Known("qf_mem", 200) by { RowFound(k := 26); assert Table[26] == MemRows[6]; }
  }

  /** Every (module, id) pair the tests enumerate is in the table: they are
      its first 27 rows, in table order. */
  lemma TestedAssertsKnown()
    ensures Known("qf_actq", 102) && Known("qf_actq", 190) && Known("qf_actq", 202)
    ensures Known("qf_actq", 201) && Known("qf_actq", 310) && Known("qf_actq", 400)
    ensures Known("qep_hsm", 200) && Known("qep_hsm", 210) && Known("qep_hsm", 220)
    ensures Known("qep_hsm", 290) && Known("qf_defer", 210) && Known("qf_dyn", 200)
    ensures Known("qf_dyn", 201) && Known("qf_dyn", 400) && Known("qf_dyn", 300)
    ensures Known("qf_dyn", 320) && Known("qf_dyn", 402) && Known("qf_dyn", 410)
    ensures Known("qf_dyn", 502) && Known("qf_dyn", 602) && Known("qf_mem", 100)
    ensures Known("qf_mem", 110) && Known("qf_mem", 300) && Known("qf_mem", 302)
    ensures Known("qf_mem", 320) && Known("qf_mem", 330) && Known("qf_mem", 200)
  {
    ActqRowsKnown();
    HsmAndDeferRowsKnown();
    DynRowsKnown();
    MemRowsKnown();
  }

  /** ("qf_actq", 102) has a brief, tips and a url. */
  lemma ActqPostFullyDescribed()
    ensures Lookup(Table, "qf_actq", 102).Some?
    ensures Lookup(Table, "qf_actq", 102).value.brief.Some?
    ensures Lookup(Table, "qf_actq", 102).value.tips.Some?
    ensures Lookup(Table, "qf_actq", 102).value.url.Some?
  {
  }

  /** ("qf_actq", 310) has a brief and tips but a NULL url. */
  lemma ActqGetHasNoUrl()
    ensures Lookup(Table, "qf_actq", 310).Some?
    ensures Lookup(Table, "qf_actq", 310).value.brief.Some?
    ensures Lookup(Table, "qf_actq", 310).value.tips.Some?
    ensures Lookup(Table, "qf_actq", 310).value.url.None?
  {
    EveryRowDescribed();
    assert Table[4] == ActqRows[4];
  }

  /** A module the table does not describe is never found; in particular
      ("gobble", 123456). */
  lemma UnknownModuleMissing(moduleName: string, id: int)
    requires moduleName !in Modules
    ensures Lookup(Table, moduleName, id).None?
  {
    TableWellFormed();
    forall i | 0 <= i < |Table| ensures !Matches(Table[i], moduleName, id) {
      if i < |Table| - 1 {
        assert Table[..|Table| - 1][i] == Table[i];
      }
    }
    LookupMiss(Table, moduleName, id);
  }

  /** The registry state: the slot that holds at most one unknown-QASSERT
      callback (`m_unknown_callback`, qassert-meta.c:4). The internal table
      is the constant `Table`. */
  class Registry {
    var fallback: Option<Resolver>

    /** The slot starts out empty (its static initialiser is NULL). */
    constructor ()
      ensures fallback == None
    {
      fallback := None;
    }

    /** QAssertMetaInit: empties the slot, whatever it held before. */
    method Init()
      modifies this
      ensures fallback == None
    {
      fallback := None;
    }

    /** QAssertMetaRegisterUnknownCallback: the slot holds exactly the given
        callback afterwards, so the last registration wins and registering
        NULL (`None`) empties it. */
    method RegisterUnknownCallback(callback: Option<Resolver>)
      modifies this
      ensures fallback == callback
    {
      fallback := callback;
    }

    /** QAssertMetaGetDescription. `output` is the caller's output record
        (its current contents), `None` for a NULL pointer; `result` is that
        record's contents afterwards.

        - A NULL output answers false at once, without calling the
          callback; the tests require false even for a known key. The C
          body would instead hand NULL to an installed callback.
        - Otherwise the table is searched first; a match answers true with
          the matching row's description, and the callback is not called.
        - Only on a miss is the callback consulted, with exactly the
          caller's module and id and the record as the caller left it; its
          answer and whatever it left in the record are returned as they
          are, false included.
        - With no callback a miss answers false and leaves the record alone.

        The method reads the slot and never changes it. */
    method GetDescription(moduleName: string, id: int, output: Option<Description>)
      returns (found: bool, result: Option<Description>)
      ensures output.None? ==> !found && result.None?
      ensures output.Some? ==> result.Some?
      ensures output.Some? && Lookup(Table, moduleName, id).Some? ==>
        found && result == Lookup(Table, moduleName, id)
      ensures output.Some? && Lookup(Table, moduleName, id).None? && fallback.None? ==>
        !found && result == output
      ensures output.Some? && Lookup(Table, moduleName, id).None? && fallback.Some? ==>
        (found, result.value) == fallback.value(moduleName, id, output.value)
    {
      found, result := false, output;
      if output.None? {
        return;
      }
      // The table search stands where qassert-meta.c:19 has its TODO.
      var i := 0;
      while !IsSentinel(Table[i])
        invariant 0 <= i < |Table|
        invariant Lookup(Table[i..], moduleName, id) == Lookup(Table, moduleName, id)
        invariant !found && result == output
        decreases |Table| - i
      {
        if Matches(Table[i], moduleName, id) {
          found, result := true, Some(Table[i].description);
          break;
        }
        assert Table[i..][1..] == Table[i + 1..];
        i := i + 1;
      }
      if !found && fallback.Some? {
        var (answer, written) := fallback.value(moduleName, id, result.value);
        found, result := answer, Some(written);
      }
    }

    /** QAssertMetaGetDescription as qassert-meta.c:16-27 writes it, with
        the search still a TODO: `found` starts false and only the callback
        can change it, so the table is never consulted. The output record
        is taken as present. */
    method GetDescriptionAsWritten(moduleName: string, id: int, output: Description)
      returns (found: bool, result: Description)
      ensures fallback.None? ==> !found && result == output
      ensures fallback.Some? ==> (found, result) == fallback.value(moduleName, id, output)
    {
      found, result := false, output;
      if !found && fallback.Some? {
        var (answer, written) := fallback.value(moduleName, id, output);
        found, result := answer, written;
      }
    }
  }

  /** The input that shows the missing search: with no callback installed,
      ("qf_actq", 102) is a row of the table, yet the body as written answers
      false, where the tests expect true; the search answers true. */
  method AsWrittenMissesKnownAssert() returns (asWritten: bool, corrected: bool)
    ensures Known("qf_actq", 102)
    ensures !asWritten && corrected
  {
    var registry := new Registry();
    registry.Init();
    ActqPostFullyDescribed();
    var written: Description;
    var filled: Option<Description>;
    asWritten, written := registry.GetDescriptionAsWritten("qf_actq", 102, Blank);
    corrected, filled := registry.GetDescription("qf_actq", 102, Some(Blank));
  }

  /** The tests' scenarios, checked by the verifier against the contracts
      above. */
  method Scenarios()
  {
    var registry := new Registry();
    registry.Init();
    UnknownModuleMissing("gobble", 123456);

    // An unknown assertion with no callback is not found.
    var found, result := registry.GetDescription("gobble", 123456, Some(Blank));
    assert !found;

    // A NULL output is refused, even for a known assertion.
    TestedAssertsKnown();
    found, result := registry.GetDescription("qf_actq", 102, None);
    assert !found;

    // A callback that answers false still decides the answer, and it is
    // handed the caller's own module and id.
    var echo: Resolver := (m, i, d) => (false, Description(Some(m), None, None));
    registry.RegisterUnknownCallback(Some(echo));
    found, result := registry.GetDescription("gobble", 123456, Some(Blank));
    assert !found && result == Some(Description(Some("gobble"), None, None));

    // A callback that answers true fills the record, a NULL url included.
    var extend: Resolver := (m, i, d) => (true, Description(Some("This is short"), Some("Here are some tips"), None));
    registry.RegisterUnknownCallback(Some(extend));
    UnknownModuleMissing("extended", 1);
    found, result := registry.GetDescription("extended", 1, Some(Blank));
    assert found && result == Some(Description(Some("This is short"), Some("Here are some tips"), None));

    // A known assertion is answered from the table, not by the callback.
    ActqPostFullyDescribed();
    found, result := registry.GetDescription("qf_actq", 102, Some(Blank));
    assert found && result.value.brief.Some? && result.value.tips.Some? && result.value.url.Some?;

    // After Init the callback is gone.
    registry.Init();
    found, result := registry.GetDescription("extended", 1, Some(Blank));
    assert !found;
  }
}
