# sbalance balance pipeline, in Dafny

`sbalance` reports the remaining Slurm billing balance of each account/QoS association. Its core, in
`sbalance/sbalance.py`, is a pipeline with four stages:

- **QoS catalog** (`query_qos`). Keeps the QoS rows whose comma-separated `flags` hold `NoDecay`, and
  parses each one's `grptresmins` (`k=v,k=v`) into a record of TRES minutes.
- **Associations** (`query_accounts`). Turns every association row of a named user into one
  `(account, qos)` key per QoS in its comma list, kept in first-insertion order. A catalogued QoS binds
  the key to the catalog's own record object, so that object is shared. Any other QoS gets a fresh
  `{}`. The row's `default` flag is then written into whichever record the key holds.
- **Usage** (`query_usage`). Accumulates the `alloctres` of every job row per `(account, qos)`, with
  every `M` removed from the values. It also adds up the elapsed minutes.
- **Report** (`print_user_balance`). For each association it chooses a heading. It then reports
  `unlimited`, or the allocation, usage, remaining balance and percentage in SU, kSU or MSU.
- **`main`** chains the four stages.

How the model is built:

- The listings come in as rows already split on `|` (`QosRow`, `AssocRow`, `UsageRow`).
- The Python string operations the code uses follow Python 3 `str` semantics: `split`, `strip` (white
  space as `str.isspace`), `replace` and `int` (ASCII digits with an optional sign). The differences
  from Python 2 byte strings and from `int`'s full grammar are listed under "## Left out".
- Every exception the code can raise on such rows, except float overflow, becomes a `Failure`:
  - a token that does not unpack into `k, v`;
  - a value `int()` rejects;
  - a usage entry without `billing`;
  - a record without `default`.
- A dictionary that is read as a value becomes a `map`.
- The QoS records are a `class` (`Records.QosRecord`), because the code shares them between keys and
  writes into them in place. The association loader (`Accounts.QueryAccounts`) works on those objects.
- The loops are methods with invariants, each proved equal to a specification function:
  - `Qos.QueryQos` against `QosCatalog`;
  - `Accounts.QueryAccounts` against `AssocWrites`/`KeysOf`/`LastSharedFlag`;
  - `Usage.QueryUsage` against `UsageTotals`;
  - `Balance.UserBalance` against `Balances`.
- The lemmas are stated about those specification functions.
- `Sbalance.Sbalance` is `main`. It is proved equal to `Sbalance.Report`, the whole pipeline stated
  on values.

Modules (one file each):

| module | file | what it models |
|---|---|---|
| Wrappers | wrappers.dfy | `Option`, `Result` |
| Text | text.dfy | `str.split`, `str.join`, `str.strip`, `str.replace(c, '')`, `int()`, `str(n)` |
| Records | records.dfy | `(account, qos)` keys, the tri-state `default`, errors, the shared record class |
| Tres | tres.dfy | the `k=v,k=v` dict comprehension of lines 54 and 121 |
| Qos | qos.dfy | `query_qos` |
| Accounts | accounts.dfy | `query_accounts`, with its aliasing |
| Usage | usage.dfy | `query_usage`, as written and corrected |
| Balance | balance.dfy | `print_user_balance` |
| Sbalance | sbalance.dfy | `main` |

What the code does, kept as written:

- `grptresmins` values are read as they stand (line 54), so `4000M` is not an integer there
  (`Tres.MemoryValueRejected`). `alloctres` values lose every `M`, wherever it stands (line 121).
- A later job of a key is charged `ceil(value * minutes)` per job and per TRES (lines 129-131).
- The first job of a key is stored with its raw TRES counts (line 134). `grptresmins` and every later
  charge are TRES-minutes; the first job's counts are not. Billing 10 for 600 s then 20 for 1200 s
  totals 410, where charging both jobs gives 500 (see Findings).
- `main` calls `query_accounts` with no user list (line 216), so the pipeline uses the empty filter.
  The filter itself is modelled in `Accounts.QueryAccounts` (`users`).
- `default` is written into the shared catalog record (line 88), so one account's row can change
  another account's heading (see Findings).

## Model

| member | source | states |
|---|---|---|
| Text.Split | sbalance/sbalance.py:53-54 | `split` always yields at least one piece, and exactly one when the separator does not occur |
| Text.SplitPieces | sbalance/sbalance.py:53-54 | no piece of a split contains the separator |
| Text.JoinSplit | sbalance/sbalance.py:53 | joining the pieces of a split with the separator gives back the text |
| Text.SplitJoin | sbalance/sbalance.py:53 | splitting a join of separator-free pieces gives back the pieces |
| Text.StripLeft | sbalance/sbalance.py:54 | the left strip is a suffix of the text and does not begin with white space |
| Text.StripRight | sbalance/sbalance.py:54 | the right strip is a prefix of the text and does not end with white space |
| Text.StripLeftSpaces | sbalance/sbalance.py:54 | everything the left strip removes is white space |
| Text.StripRightSpaces | sbalance/sbalance.py:54 | everything the right strip removes is white space |
| Text.Strip | sbalance/sbalance.py:54 | `strip()` neither begins nor ends with white space |
| Text.Remove | sbalance/sbalance.py:121 | `replace('M', '')` leaves no `M`, and leaves a text without `M` unchanged |
| Text.RemoveKeeps | sbalance/sbalance.py:121 | every other character is kept, as often as it occurs |
| Text.RemoveAppend | sbalance/sbalance.py:121 | removing a character distributes over concatenation |
| Text.ParseInt | sbalance/sbalance.py:54 | `int()` of an empty or all-white-space text is a ValueError |
| Text.StripKeepsVisibleEnd | sbalance/sbalance.py:54 | a text that ends in a visible character still ends with it after `strip()` |
| Text.ParseIntRejectsSuffix | sbalance/sbalance.py:54 | `int()` rejects any text that ends in a visible non-digit, whatever precedes it |
| Text.ParseIntToString | sbalance/sbalance.py:54 | `int(str(n)) == n` |
| Tres.ParseTres | sbalance/sbalance.py:54 | a TRES list that parses (here and at line 121) gives a non-empty dictionary, since its split always has a first token |
| Tres.ParseToken | sbalance/sbalance.py:54 | a parsed token's key is its text before the first `=`; a token without `=` fails to unpack |
| Tres.ParseTokenMeaning | sbalance/sbalance.py:54 | a token parses only if it is `key=value` with exactly one `=` and `int()` accepts the value |
| Tres.ParseTokenOf | sbalance/sbalance.py:54 | conversely, `key=value` with one `=` and an integer value parses to `(key, int(value))` |
| Tres.ParsePairsSucceeds | sbalance/sbalance.py:54 | the comprehension succeeds iff every token parses |
| Tres.ParsePairsFirstError | sbalance/sbalance.py:54 | a failing comprehension raises the error of its first bad token, all earlier ones being good |
| Tres.ParsePairsKeys | sbalance/sbalance.py:54 | every key of the result is some token's key |
| Tres.ParsePairsLastWins | sbalance/sbalance.py:54 | each token's key is in the result with the value of the last token carrying that key |
| Tres.ParseTresBlank | sbalance/sbalance.py:54 | an empty or all-white-space list fails on the unpacking of `''` |
| Tres.ParseRender | sbalance/sbalance.py:54 | round trip: parsing a printed `k=v,...` list gives back its dictionary, in both listings |
| Tres.ParseSinglePair | sbalance/sbalance.py:121 | a single printed pair parses to its one-entry dictionary |
| Tres.MemoryValueParses | sbalance/sbalance.py:121 | in the usage listing `<n>M` reads as `n` |
| Tres.MemoryValueRejected | sbalance/sbalance.py:54 | in the QoS listing `<n>M` is not an integer |
| Qos.HasNoDecay | sbalance/sbalance.py:53 | a `flags` field without a comma qualifies iff it is exactly `NoDecay` |
| Qos.NoDecayAmongFlags | sbalance/sbalance.py:53 | a row qualifies iff one of its comma-separated flags is exactly `NoDecay` |
| Qos.QosCatalog | sbalance/sbalance.py:51-54 | every catalogued record is a non-empty dictionary |
| Qos.LoadNonEmpty | sbalance/sbalance.py:51-54 | the loop files only parsed records, so when every parse is non-empty every record is |
| Qos.CatalogFails | sbalance/sbalance.py:51-54 | the load fails iff some flagged row's `grptresmins` does not parse |
| Qos.CatalogMembers | sbalance/sbalance.py:51-54 | a name is catalogued iff some row of that name is flagged `NoDecay` |
| Qos.CatalogLastRowWins | sbalance/sbalance.py:54 | a catalogued record is the parse of the last flagged row of its name |
| Qos.CatalogFailureSticks | sbalance/sbalance.py:51-54 | a failure on a prefix of the rows is the failure of the whole load |
| Qos.QueryQos | sbalance/sbalance.py:38-58 | the loop yields the catalog's names, each bound to a fresh distinct record with its minutes and no `default`, or the catalog's error |
| Qos.FileRow | sbalance/sbalance.py:52-54 | one turn of the loop keeps the records in step with the catalog of one more row |
| Qos.FileParsed | sbalance/sbalance.py:54 | a parsed flagged row is filed in a new record under its name; a failed parse is raised |
| Accounts.Selected | sbalance/sbalance.py:73-77 | a processed row names a user; with no user list, every row naming a user is processed |
| Accounts.FlagFor | sbalance/sbalance.py:86-90 | the flag is always set; it is `None` iff the QoS list has at most one entry, and otherwise true iff the QoS is the row's default QoS |
| Accounts.RowWrites | sbalance/sbalance.py:78-90 | a processed row writes at least once, every write is for the row's own account and sets `default` |
| Accounts.QueryAccounts | sbalance/sbalance.py:60-94 | keys in first-write order; catalogued keys share the catalog's record; other keys hold fresh `{}` records with their own last flag; catalog records get the last flag written through them, keeping their minutes |
| Accounts.LoadRows | sbalance/sbalance.py:73-90 | the outer loop leaves the table shaped and flagged as the writes of all rows say |
| Accounts.ProcessRow | sbalance/sbalance.py:73-77 | a row without user, or filtered out, changes nothing; a selected row adds its writes |
| Accounts.AddRow | sbalance/sbalance.py:78-90 | the inner loop performs the row's writes in list order |
| Accounts.Assign | sbalance/sbalance.py:80-90 | one assignment and one `default` write keep the table's invariant |
| Accounts.AssignShared | sbalance/sbalance.py:81-82 | a catalogued QoS binds the key to the catalog's record and writes the flag into it |
| Accounts.AssignOwn | sbalance/sbalance.py:83-84 | any other QoS binds the key to a fresh record holding only the flag |
| Accounts.KeysOfMeaning | sbalance/sbalance.py:82-84 | `KeysOf`, the key order of the `OrderedDict`, holds each written key exactly once and no other key |
| Accounts.KeysOfKeepsOrder | sbalance/sbalance.py:82-84 | a re-written key keeps its place: the key order after some writes is a prefix of the order after more |
| Accounts.AssocKeys | sbalance/sbalance.py:73-84 | a key is in the table iff some row with a user that passes the filter has that account and lists that QoS |
| Accounts.WrittenKeys | sbalance/sbalance.py:73-84 | the keys `AssocWrites` writes are exactly those the selected rows list |
| Accounts.RowWritesKey | sbalance/sbalance.py:78-84 | a row writes a key iff the key is its account and one of its listed QoS |
| Accounts.RowWritesOfList | sbalance/sbalance.py:78-90 | a row writes one key per listed QoS, in order, flagged `None` for a single QoS and otherwise by comparison with `defaultqos` |
| Accounts.AssocWritesAppend | sbalance/sbalance.py:73 | loading two batches of rows is loading the first, then the second |
| Accounts.WritesAreSet | sbalance/sbalance.py:86-90 | every write sets `default` |
| Accounts.ReportedFlagSet | sbalance/sbalance.py:86-90 | every key of the table reports a `default` |
| Accounts.SharedIsPerQos | sbalance/sbalance.py:81-88 | with one record per QoS, a shared record holds the last flag written through any key of its QoS |
| Accounts.SharedFlagLeaks | sbalance/sbalance.py:81-88 | as written, another account's later row flips the flag account A reports, while A's own rows say otherwise |
| Accounts.OwnFlagIgnoresOtherAccounts | sbalance/sbalance.py:86-90 | corrected, a key's flag is unchanged by later rows of other accounts |
| Usage.JobCharge | sbalance/sbalance.py:129-131 | the charge is the least integer not below `value * seconds / 60` |
| Usage.Accumulate | sbalance/sbalance.py:127-131 | each job TRES gets its charge added to its total, or set when the total is absent or 0; other TRES keep theirs |
| Usage.AddJob | sbalance/sbalance.py:126-135 | a new key stores the job's raw allocation and minutes; an existing key gets the minutes added, keeps its TRES and gains the job's, each job TRES getting its charge added to the old total or 0 and every other TRES keeping its total; other keys are unchanged |
| Usage.ParseJob | sbalance/sbalance.py:121-124 | a bad `alloctres` is raised first, then a bad `elapsedraw` as a ValueError; a parsed job has a non-empty allocation and the `int()` of `elapsedraw` |
| Usage.AddUsageRow | sbalance/sbalance.py:114-135 | a row without `alloctres` changes nothing; a good row adds its key; every other key keeps its entry |
| Usage.UsageTotals | sbalance/sbalance.py:114-135 | the keys of a successful run are exactly the `(account, qos)` of the rows with an `alloctres` |
| Usage.KeysStep | sbalance/sbalance.py:115-135 | one more row keeps the keys those of the rows with an `alloctres` |
| Usage.UsageSucceeds | sbalance/sbalance.py:114-124 | the run succeeds iff every row with an `alloctres` parses |
| Usage.QueryUsage | sbalance/sbalance.py:96-140 | the loop computes the usage table of the rows, or the first error |
| Usage.AddRowStep | sbalance/sbalance.py:115-135 | one turn of the loop, as statements: skip, parse and raise, or store or add the job, computing AddUsageRow |
| Usage.AccumulateTres | sbalance/sbalance.py:127-131 | the loop over the job's TRES computes Accumulate |
| Usage.UsageFailureSticks | sbalance/sbalance.py:114-121 | an error on a prefix of the rows is the error of the whole run |
| Usage.Billed | sbalance/sbalance.py:117-119 | a row is kept iff it has an `alloctres` |
| Usage.BilledAppend | sbalance/sbalance.py:114-119 | the kept rows keep their order: the filter distributes over concatenation |
| Usage.BilledSingle | sbalance/sbalance.py:117-119 | a single row is kept exactly when it has an `alloctres` |
| Usage.SkippedRowsIgnored | sbalance/sbalance.py:117-119 | rows without `alloctres` contribute nothing, not even an error |
| Usage.ChargeNonNegative | sbalance/sbalance.py:129-131 | a non-negative job charges a non-negative amount |
| Usage.JobGrows | sbalance/sbalance.py:126-135 | a non-negative job lowers no total and removes no key or TRES |
| Usage.StepGrows | sbalance/sbalance.py:126-135 | so does a non-negative row |
| Usage.TotalsGrow | sbalance/sbalance.py:114-135 | totals only grow along the rows: every prefix's table is covered by the final one |
| Usage.CorrectedAddJob | sbalance/sbalance.py:126-135 | corrected, every job adds its charge to each of its TRES, the first job included |
| Usage.CorrectedTotalIsSum | sbalance/sbalance.py:126-135 | corrected, every total is the sum of its jobs' charges |
| Usage.ChargeSumAppend | sbalance/sbalance.py:129-131 | the charges of two batches of rows add up |
| Usage.ChargeSumPerm | sbalance/sbalance.py:114-131 | the sum of the charges does not depend on the order of the rows |
| Usage.CorrectedSucceeds | sbalance/sbalance.py:114-124 | corrected, the run succeeds iff every row with an `alloctres` parses |
| Usage.CorrectedTotalsPermute | sbalance/sbalance.py:114-135 | corrected, reordering the rows changes neither success nor any total |
| Usage.FailsAlike | sbalance/sbalance.py:114-124 | as written and corrected fail on the same rows, with the same error |
| Usage.TotalsSameShape | sbalance/sbalance.py:126-135 | as written and corrected give the same keys and the same TRES per key; only totals differ |
| Usage.JobSameShape | sbalance/sbalance.py:126-135 | one job, as written and corrected, keeps the tables' keys and TRES in agreement |
| Usage.CorrectedAgreesLater | sbalance/sbalance.py:126-132 | for a key already present, the code as written and the corrected step agree |
| Usage.TwoRowTotals | sbalance/sbalance.py:114-135 | two good rows are the two steps in order |
| Usage.TwoRowCorrectedTotals | sbalance/sbalance.py:114-135 | the same, corrected |
| Usage.FirstJobParses | sbalance/sbalance.py:121-124 | a row printing one billing value and its seconds parses to them |
| Usage.ExampleAsWritten | sbalance/sbalance.py:126-135 | as written, billing 10 for 600 s then 20 for 1200 s totals 410, and 120 in the other order |
| Usage.ExampleCorrected | sbalance/sbalance.py:126-135 | corrected, the same jobs total 500 |
| Usage.FirstJobUnscaled | sbalance/sbalance.py:133-135 | on the two rows of that example the run gives 410 (120 reversed) where every job charged gives 500 |
| Balance.UnitFactor | sbalance/sbalance.py:143-151 | the factor is 1000 for `k`, 1000000 for `m`, 1 otherwise |
| Balance.UnitName | sbalance/sbalance.py:143-151 | the unit printed is `kSU`, `MSU` or `SU` exactly when the factor is 1000, 1000000 or 1 |
| Balance.Billing | sbalance/sbalance.py:164 | the billing is non-zero iff the record has a non-zero `billing`, and is then that value |
| Balance.Heading | sbalance/sbalance.py:159-162 | the heading is `account:` for `None` or true and `account:qos:` for false; a missing `default` is a KeyError |
| Balance.AssocBalance | sbalance/sbalance.py:159-179 | fails iff `default` is missing, or the billing is non-zero and the usage entry lacks `billing`; unlimited iff the billing is absent or 0 |
| Balance.LimitedLine | sbalance/sbalance.py:164-177 | a limited line's limit and usage are the billing minutes over the factor; remaining is their difference; percent is remaining over limit times 100; the unit is the option's unit name |
| Balance.NoUsageFullBalance | sbalance/sbalance.py:167-173 | without a usage entry the whole allocation remains, at 100 percent |
| Balance.PercentIgnoresUnits | sbalance/sbalance.py:143-173 | the percentage does not depend on the unit |
| Balance.Balances | sbalance/sbalance.py:155-179 | a successful report has one line per association, each that association's line |
| Balance.BalancesFailure | sbalance/sbalance.py:155-179 | the report fails iff some association fails, with the error of the first one that does |
| Balance.BalancesAlike | sbalance/sbalance.py:155-179 | two reports whose every association raises alike raise alike as a whole |
| Balance.OnlyMissingBilling | sbalance/sbalance.py:155-168 | over associations that all carry a `default`, the report's only possible error is a usage entry without `billing` |
| Balance.UserBalance | sbalance/sbalance.py:142-179 | the loop over the associations computes Balances on the records as they stand |
| Balance.FailureSticks | sbalance/sbalance.py:155-179 | an error after some associations is the result of the whole report |
| Sbalance.Report | sbalance/sbalance.py:213-219 | the pipeline raises the catalog's error first, then the usage error, then only a missing `billing` in a usage entry; otherwise it prints one line per association |
| Sbalance.ReportViewsRaise | sbalance/sbalance.py:155-168 | after the loaders every association carries a `default`, so line 159 never raises and the report can only fail on a missing `billing` (line 168) |
| Sbalance.ReportViews | sbalance/sbalance.py:81-90 | every key of the table, and no other, has a record to report |
| Sbalance.CorrectedReport | sbalance/sbalance.py:213-219 | with both corrections, the same errors in the same order (the last only a missing `billing`), and one line per association |
| Sbalance.CorrectedViewsRaise | sbalance/sbalance.py:155-168 | with each key's own flag, every association still carries a `default`, so only a missing `billing` can be raised |
| Sbalance.CorrectedRaisesAlike | sbalance/sbalance.py:213-219 | the corrections change figures and headings only: the corrected pipeline raises exactly when the code as written does, with the same error |
| Sbalance.Sbalance | sbalance/sbalance.py:213-219 | `main` returns the report of the three listings, or the first error raised |
| Sbalance.ViewsAgree | sbalance/sbalance.py:81-88 | after the loaders, each record reads as its QoS's minutes and the flag last written through that QoS |
| Sbalance.CorrectedViewLocal | sbalance/sbalance.py:86-90 | corrected, an association's heading and minutes are unchanged by later rows of other accounts |

## Left out

- External processes: the `sacctmgr`/`sacct`/`sshare` command lines and `subprocess.check_output` (lines 40-48, 62-70, 98-111, 182). The listings are parameters.
- The `-q` QoS filter that `query_usage` passes to `sacct` (lines 104-106). The usage rows are taken as given.
- `csv.DictReader` (lines 49, 71, 112). It is modelled as a plain split on `|` with every field present. Quoting, dialects and short lines are not modelled.
- `argparse`, `getpass`, the version string, and the verbosity plumbing of `__verbose_print` (lines 19, 36, 45, 56, 181-211). These are command-line and logging glue.
- `print` and the `%12.2f` layout (lines 153, 160-179). The model yields the heading and the numbers of each line, not the text.
- Floating point. `/ 60.0`, `/ su_factor` and the percentage are exact `real`s. IEEE rounding is not modelled. Values beyond the float range, which raise OverflowError in Python (lines 124, 129-131, 165, 168, 172), are not modelled either.
- Text.ParseInt: covers ASCII digits with an optional sign and Python 3's white space. It does not model underscores (`1_000`, Python 3.6 and later) or non-ASCII digits, which Python 3's `int()` accepts.
- Records.QosRecord: holds the TRES minutes and `default` as two fields. A TRES named `default` in `grptresmins` would share the dictionary slot with the flag in Python; that collision is not modelled.
- Usage.UsageEntry: keeps `elaspsed_mins` apart from the TRES totals. A TRES of that name would collide in Python's dictionary; that is not modelled either.
- Lines printed before an exception. A failing report is a `Failure` with no partial output.
- Text.IsSpace: is Python 3's `str.isspace`. Under Python 2 byte strings, `strip()` and `int()` treat only ASCII white space, so `\x1c`-`\x1f`, `\x85` and `\xa0` would be kept there; the model strips them.
- The Python 2 integer division of `billing / su_factor` and of the usage's `billing / su_factor` with the factor 1 (lines 165 and 168, plain SU). For integer billings it equals the real quotient, so both Pythons give the billing itself.
- `setup.py`: packaging metadata.

## Findings

| source | as written | input that shows it | evidently intended | confidence | as-written member | corrected member |
|---|---|---|---|---|---|---|
| sbalance/sbalance.py:133-135 | the first job of a key is stored with its raw TRES counts, not `ceil(value * minutes)` | one key, `billing=10` for 600 s then `billing=20` for 1200 s: total 410 (120 in the other order) | every job is charged, 100 + 400 = 500 in either order | not executed | Usage.FirstJobUnscaled | Usage.CorrectedTotalIsSum |
| sbalance/sbalance.py:81-88 | `default` is written into the catalog's record, which every key of that QoS shares | accounts A and B both list catalogued QoS `q` among several; `q` is A's default QoS but not B's; once B's row is loaded, `(A, q)` is headed `A:q:` | each `(account, qos)` keeps the flag of its own row | not executed | Accounts.SharedFlagLeaks | Accounts.OwnFlagIgnoresOtherAccounts |

`Sbalance.Report` follows the code as written. `Sbalance.CorrectedReport` applies both corrections:

- `Usage.CorrectedUsageTotals` replaces `Usage.UsageTotals`;
- `Sbalance.CorrectedViews` reads each key's own flag (`Accounts.OwnFlag`).

`Balance.Balances` takes any usage table and any records, so it serves both.
