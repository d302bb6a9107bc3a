# QASSERT description registry, modelled in Dafny

The library maps the (module, id) pair of a QP framework assertion (a
QASSERT) to a description with three optional text fields: brief, tips and
url. It has three parts:

- A process-wide slot holds at most one unknown-QASSERT callback.
  `QAssertMetaInit` empties the slot and `QAssertMetaRegisterUnknownCallback`
  overwrites it.
- A fixed table (the qpcpp variant) lists 52 described assertions in
  declaration order. A sentinel row with a NULL module closes it.
- `QAssertMetaGetDescription` is documented (qassert-meta.h lines 28-42)
  to identify the assertion by module and id, and to call the callback only
  for an unknown pair; it then returns the callback's answer as it is. The
  model's search takes the first matching row. The header does not say
  which row wins, and in the qpcpp table only one row matches any key
  (`LookupAnyMatch`).

Files:

- `qassert_meta_types.dfy` (module `QAssertMetaTypes`) holds the header's
  records and the private entry record. `Description` has three
  `Option<string>` fields. `Resolver` is the callback shape: a function
  from (module, id, current output contents) to (answer, new output
  contents). `Entry` is a table row, and its module is an `Option<string>`
  so that the sentinel can be written. The file also has the predicates
  about rows and tables (sentinel, match, terminated, distinct keys).
- `qassert_meta_data.dfy` (module `QAssertMetaData`) holds the table
  `Table`. It is written as its nine runs of same-module rows, concatenated
  in source order. That is the same sequence, and it lets each run be
  checked on its own. Lemmas prove the table's shape.
- `qassert_meta.dfy` (module `QAssertMeta`) holds the following:
  - `Lookup`, the first-match scan that stops at the sentinel, with its
    lemmas.
  - The `Registry` class. Its field `fallback` is the callback slot.
    `GetDescription` is a `while` loop over `Table`, proved against
    `Lookup`.
  - The lemmas about the concrete table.
  - `Scenarios`, which restates the library's unit tests as assertions
    that the verifier checks against the contracts.

The table search is not written in the body of `QAssertMetaGetDescription`:
qassert-meta.c line 19 leaves it as a TODO. Two sources require it: the
header's documentation of the functions (qassert-meta.h lines 28-42) and
the tests for known assertions (qassert-meta-lib-tests.cpp lines 79-120).
The model puts the search where the TODO stands, ahead of the callback
test on line 21. The code as written is modelled too, under "## Findings".

The NULL-output check also does not appear in the `.c` body. The test at
qassert-meta-lib-tests.cpp lines 25-28 requires false for a NULL output even
for a known key, and the header (qassert-meta.h line 39) asks for a valid
pointer. The model therefore answers false for a NULL output before it
searches, and then it does not call the callback either. This differs from
the `.c` body, which hands a NULL output to an installed callback
(qassert-meta.c lines 21-23) and returns whatever that callback answers;
the test covers only the case with no callback installed.

The code has no NULL-module check, and the model claims none. The qpcpp
table has no duplicate keys (`TableWellFormed`), and first-match is still
proved for any table (`LookupIsFirstMatch`).

## Model

| member | source | states |
|---|---|---|
| `QAssertMeta.Registry.constructor` | qassert-meta-lib/src/qassert-meta.c:4 | The callback slot starts out empty. |
| `QAssertMeta.Registry.Init` | qassert-meta-lib/src/qassert-meta.c:6-9 | After Init no callback is installed, whatever was registered before. |
| `QAssertMeta.Registry.RegisterUnknownCallback` | qassert-meta-lib/src/qassert-meta.c:11-14 | The slot holds exactly the callback just registered: the last registration wins, and registering NULL empties the slot. |
| `QAssertMeta.Registry.GetDescription` | qassert-meta-lib/src/qassert-meta.c:16-27 | A NULL output answers false and does not call the callback. On a table hit it answers true with the first matching row's description and does not call the callback. On a miss with a callback, the answer and the output are exactly what the callback returns when it is given the caller's own module, id and record, false included. On a miss with no callback it answers false and leaves the record alone. It never changes the slot (it has no modifies clause). |
| `QAssertMeta.Registry.GetDescriptionAsWritten` | qassert-meta-lib/src/qassert-meta.c:18-26 | The body as written, with the search left as a TODO: with no callback it always answers false, and otherwise it answers whatever the callback answers. |
| `QAssertMeta.AsWrittenMissesKnownAssert` | qassert-meta-lib/tests/qassert-meta-lib-tests.cpp:79-87 | ("qf_actq", 102) is in the table, yet with no callback the body as written answers false, while the model with the search answers true. |
| `QAssertMeta.LookupIsFirstMatch` | qassert-meta-lib/include/qassert-meta.h:35-42 | A matching row with no sentinel and no other match before it is the one returned, whatever later rows share its key: the first match wins. |
| `QAssertMeta.LookupSound` | qassert-meta-lib/include/qassert-meta.h:35-42 | Any description the search returns belongs to a row that matches the requested module and id exactly and that lies before any sentinel. |
| `QAssertMeta.LookupMiss` | qassert-meta-lib/src/qassert-meta-qpcpp-data.c:494-497 | On a table that the sentinel terminates, the search misses if and only if no row matches. |
| `QAssertMeta.LookupAnyMatch` | qassert-meta-lib/src/qassert-meta-qpcpp-data.c:33-498 | On a terminated table whose keys are distinct, any matching row is the one found, so first-match and any-match agree. |
| `QAssertMeta.EveryRowDescribed` | qassert-meta-lib/src/qassert-meta-qpcpp-data.c:34-493 | Every real row of the table is found under its own key with its own description, and that description has a brief. |
| `QAssertMeta.TestedAssertsKnown` | qassert-meta-lib/tests/qassert-meta-lib-tests.cpp:89-120 | Each of the 27 (module, id) pairs that the tests enumerate is found in the table. |
| `QAssertMeta.ActqPostFullyDescribed` | qassert-meta-lib/src/qassert-meta-qpcpp-data.c:34-43 | ("qf_actq", 102) is found with brief, tips and url all present. |
| `QAssertMeta.ActqGetHasNoUrl` | qassert-meta-lib/src/qassert-meta-qpcpp-data.c:75-82 | ("qf_actq", 310) is found with a brief and tips but a NULL url. |
| `QAssertMeta.UnknownModuleMissing` | qassert-meta-lib/tests/qassert-meta-lib-tests.cpp:19-23 | No id of a module outside the nine that the table describes is found. "gobble" is such a module. |
| `QAssertMetaData.TableWellFormed` | qassert-meta-lib/src/qassert-meta-qpcpp-data.c:33-498 | The table has 53 rows. It ends with exactly one sentinel (NULL module, id -1, all fields NULL). Every other row has a module among the nine and a brief. No two real rows share a (module, id) key. |
| `QAssertMetaData.JoinSection` | qassert-meta-lib/src/qassert-meta-qpcpp-data.c:33-493 | Helper for `TableWellFormed`, about any rows: appending a run of rows for a module that no earlier row uses keeps every key distinct and every row real. |
| `QAssertMetaData.CloseTable` | qassert-meta-lib/src/qassert-meta-qpcpp-data.c:494-497 | Helper for `TableWellFormed`, about any rows: closing distinct real rows with the sentinel gives a terminated table whose keys are still distinct. |

## Findings

| source | as written | input that shows it | evidently intended | confidence | as-written member | corrected member |
|---|---|---|---|---|---|---|
| qassert-meta-lib/src/qassert-meta.c:19 | The table search is a TODO. `found` stays false unless a callback sets it. | `QAssertMetaGetDescription("qf_actq", 102, &d)` after `QAssertMetaInit` answers false. The tests at qassert-meta-lib-tests.cpp:79-87 expect true. | Search the table first and call the callback only for an unknown pair (qassert-meta.h:28-42). | high; not executed | `QAssertMeta.AsWrittenMissesKnownAssert` | `QAssertMeta.Registry.GetDescription` |

## Left out

- The wording of the descriptions. Each present text field holds one
  stand-in string. Only which fields are present and which are NULL is
  modelled, row by row.
- A NULL module argument. The module is a `string`. The modelled search
  would compare a NULL module against the rows, and the C body passes it to
  the callback unchecked; the model does not cover that case.
- `QAssertMeta.Registry.GetDescriptionAsWritten`: takes a non-NULL output
  record only. The C body hands a NULL output straight to the callback, and
  the `Resolver` shape has no NULL record.
- The output pointer and aliasing. The caller's record goes in as a value
  (`None` for NULL), and its contents afterwards come back as a value.
- The lifetime of strings and of the callback, which the library does not
  own.
- Side effects of callbacks. A `Resolver` is a pure function. That the
  callback is called with the caller's module and id is stated by naming
  its result on exactly those arguments.
- The C `int` width of the id. Ids are only compared, never computed on,
  so the range does not matter.
- Thread safety of the global slot. The slot is a plain static with no
  locking; concurrent use is not modelled.
- The qpc table, chosen at build time (qassert-meta-private.h:34-35). That
  table is not part of this model; only the qpcpp table is.
