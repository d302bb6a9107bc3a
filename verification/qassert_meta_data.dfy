/** The qpcpp variant of the internal QASSERT table
    (qassert-meta-qpcpp-data.c:33-498): 52 described assertions in
    declaration order, closed by the sentinel row. The source writes it as
    one initialised array; here it is written as its nine runs of rows that
    share a module, concatenated in the same order, which is the same
    sequence and lets each run be checked on its own. */
module QAssertMetaData {
  import opened QAssertMetaTypes

  /** Stand-in for the prose of a present text field: only whether each
      field is present or NULL is modelled, not its wording. */
  const Prose: string := "(text)"

  /** Brief, tips and url all present: every row but one. */
  const Full: Description := Description(Some(Prose), Some(Prose), Some(Prose))

  /** Brief and tips present, url NULL: the row ("qf_actq", 310). */
  const TipsNoUrl: Description := Description(Some(Prose), Some(Prose), None)

  /** The "qf_actq" rows, qassert-meta-qpcpp-data.c:34-90. */
  const ActqRows: seq<Entry> := [
    Entry(Some("qf_actq"), 102, Full),
    Entry(Some("qf_actq"), 190, Full),
    Entry(Some("qf_actq"), 202, Full),
    Entry(Some("qf_actq"), 201, Full),
    Entry(Some("qf_actq"), 310, TipsNoUrl),
    Entry(Some("qf_actq"), 400, Full)
  ]

  /** The "qep_hsm" rows, qassert-meta-qpcpp-data.c:91-124. */
  const HsmRows: seq<Entry> := [
    Entry(Some("qep_hsm"), 200, Full),
    Entry(Some("qep_hsm"), 210, Full),
    Entry(Some("qep_hsm"), 220, Full),
    Entry(Some("qep_hsm"), 290, Full)
  ]

  /** The "qf_defer" rows, qassert-meta-qpcpp-data.c:125-132. */
  const DeferRows: seq<Entry> := [
    Entry(Some("qf_defer"), 210, Full)
  ]

  /** The "qf_dyn" rows, qassert-meta-qpcpp-data.c:133-205. */
  const DynRows: seq<Entry> := [
    Entry(Some("qf_dyn"), 200, Full),
    Entry(Some("qf_dyn"), 201, Full),
    Entry(Some("qf_dyn"), 400, Full),
    Entry(Some("qf_dyn"), 300, Full),
    Entry(Some("qf_dyn"), 320, Full),
    Entry(Some("qf_dyn"), 402, Full),
    Entry(Some("qf_dyn"), 410, Full),
    Entry(Some("qf_dyn"), 502, Full),
    Entry(Some("qf_dyn"), 602, Full)
  ]

  /** The "qf_mem" rows, qassert-meta-qpcpp-data.c:206-262. */
  const MemRows: seq<Entry> := [
    Entry(Some("qf_mem"), 100, Full),
    Entry(Some("qf_mem"), 110, Full),
    Entry(Some("qf_mem"), 300, Full),
    Entry(Some("qf_mem"), 302, Full),
    Entry(Some("qf_mem"), 320, Full),
    Entry(Some("qf_mem"), 330, Full),
    Entry(Some("qf_mem"), 200, Full)
  ]

  /** The "qf_ps" rows, qassert-meta-qpcpp-data.c:263-353. */
  const PsRows: seq<Entry> := [
    Entry(Some("qf_ps"), 200, Full),
    Entry(Some("qf_ps"), 202, Full),
    Entry(Some("qf_ps"), 210, Full),
    Entry(Some("qf_ps"), 220, Full),
    Entry(Some("qf_ps"), 290, Full),
    Entry(Some("qf_ps"), 300, Full),
    Entry(Some("qf_ps"), 302, Full),
    Entry(Some("qf_ps"), 400, Full),
    Entry(Some("qf_ps"), 402, Full),
    Entry(Some("qf_ps"), 500, Full)
  ]

  /** The "qf_qact" rows, qassert-meta-qpcpp-data.c:354-384. */
  const QactRows: seq<Entry> := [
    Entry(Some("qf_qact"), 100, Full),
    Entry(Some("qf_qact"), 190, Full),
    Entry(Some("qf_qact"), 200, Full)
  ]

  /** The "qf_qeq" rows, qassert-meta-qpcpp-data.c:385-420. */
  const QeqRows: seq<Entry> := [
    Entry(Some("qf_qeq"), 200, Full),
    Entry(Some("qf_qeq"), 210, Full),
    Entry(Some("qf_qeq"), 300, Full),
    Entry(Some("qf_qeq"), 410, Full)
  ]

  /** The "qf_time" rows, qassert-meta-qpcpp-data.c:421-493. */
  const TimeRows: seq<Entry> := [
    Entry(Some("qf_time"), 300, Full),
    Entry(Some("qf_time"), 400, Full),
    Entry(Some("qf_time"), 600, Full),
    Entry(Some("qf_time"), 100, Full),
    Entry(Some("qf_time"), 110, Full),
    Entry(Some("qf_time"), 112, Full),
    Entry(Some("qf_time"), 190, Full),
    Entry(Some("qf_time"), 800, Full)
  ]

  /** The whole table, sentinel last. */
  const Table: seq<Entry> :=
    ActqRows + HsmRows + DeferRows + DynRows + MemRows + PsRows + QactRows + QeqRows + TimeRows + [Sentinel]

  /** The modules the table describes. */
  const Modules: set<string> :=
    {"qf_actq", "qep_hsm", "qf_defer", "qf_dyn", "qf_mem", "qf_ps", "qf_qact", "qf_qeq", "qf_time"}

  /** A real row: its module is present and one of `mods`, and it has a brief. */
  predicate RealRow(e: Entry, mods: set<string>) {
    e.moduleName.Some? && e.moduleName.value in mods && e.description.brief.Some?
  }

  predicate RealRows(t: seq<Entry>, mods: set<string>) {
    forall i | 0 <= i < |t| :: RealRow(t[i], mods)
  }

  /** Each run, on its own: real rows of its one module, no id twice. */
  lemma SectionsWellFormed()
    ensures RealRows(ActqRows, {"qf_actq"}) && DistinctKeys(ActqRows)
    ensures RealRows(HsmRows, {"qep_hsm"}) && DistinctKeys(HsmRows)
    ensures RealRows(DeferRows, {"qf_defer"}) && DistinctKeys(DeferRows)
    ensures RealRows(DynRows, {"qf_dyn"}) && DistinctKeys(DynRows)
    ensures RealRows(MemRows, {"qf_mem"}) && DistinctKeys(MemRows)
    ensures RealRows(PsRows, {"qf_ps"}) && DistinctKeys(PsRows)
    ensures RealRows(QactRows, {"qf_qact"}) && DistinctKeys(QactRows)
    ensures RealRows(QeqRows, {"qf_qeq"}) && DistinctKeys(QeqRows)
    ensures RealRows(TimeRows, {"qf_time"}) && DistinctKeys(TimeRows)
  {
  }

  /** Appending a run of a module that no earlier row uses keeps every key
      distinct. */
  lemma JoinSection(a: seq<Entry>, mods: set<string>, b: seq<Entry>, m: string)
    requires RealRows(a, mods) && DistinctKeys(a)
    requires RealRows(b, {m}) && DistinctKeys(b) && m !in mods
    ensures RealRows(a + b, mods + {m}) && DistinctKeys(a + b)
  {
  }

  /** Closing a run of real rows with the sentinel gives a terminated table
      whose keys are still distinct. */
  lemma CloseTable(a: seq<Entry>, mods: set<string>)
    requires RealRows(a, mods) && DistinctKeys(a)
    ensures Terminated(a + [Sentinel]) && DistinctKeys(a + [Sentinel])
  {
  }

  /** The table ends with exactly one sentinel, every other row is a real
      row of one of the nine modules, and no two real rows share a key. */
  lemma TableWellFormed()
    ensures |Table| == 53 && Terminated(Table) && DistinctKeys(Table)
    ensures RealRows(Table[..|Table| - 1], Modules)
  {
    SectionsWellFormed();
    var rows := ActqRows;
    var mods := {"qf_actq"};
    JoinSection(rows, mods, HsmRows, "qep_hsm");
    rows, mods := rows + HsmRows, mods + {"qep_hsm"};
    JoinSection(rows, mods, DeferRows, "qf_defer");
    rows, mods := rows + DeferRows, mods + {"qf_defer"};
    JoinSection(rows, mods, DynRows, "qf_dyn");
    rows, mods := rows + DynRows, mods + {"qf_dyn"};
    JoinSection(rows, mods, MemRows, "qf_mem");
    rows, mods := rows + MemRows, mods + {"qf_mem"};
    JoinSection(rows, mods, PsRows, "qf_ps");
    rows, mods := rows + PsRows, mods + {"qf_ps"};
    JoinSection(rows, mods, QactRows, "qf_qact");
    rows, mods := rows + QactRows, mods + {"qf_qact"};
    JoinSection(rows, mods, QeqRows, "qf_qeq");
    rows, mods := rows + QeqRows, mods + {"qf_qeq"};
    JoinSection(rows, mods, TimeRows, "qf_time");
    rows, mods := rows + TimeRows, mods + {"qf_time"};
    CloseTable(rows, mods);
    assert Table == rows + [Sentinel];
    assert mods == Modules;
    assert Table[..|Table| - 1] == rows;
  }
}
