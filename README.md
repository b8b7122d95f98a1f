# Member benefit consensus: a Dafny model

This project models the request pipeline of a small HTTP service. For a
member id, the service asks three upstream providers in turn for the
member's out-of-pocket maximum, remaining out-of-pocket maximum and copay,
all in cents. It retries each provider a bounded number of times and
collects the usable answers field by field. For each field it then reports
the statistical mode, rendered as dollars.

The model has five modules:

- `Wrappers` (`wrappers.dfy`): the `Option` type that stands for Python's `None`.
- `Currency` (`currency.dfy`): integer rendering of cents as `$` followed by a
  comma-grouped dollar part, a dot and two cent digits. `ParseCurrency` is
  its inverse in both directions: it recovers every rendered amount
  (`ParseFormatCents`), and whatever it accepts is a rendering
  (`ParseOnlyRenderings`).
- `Consensus` (`consensus.dfy`): occurrence counting, the mode with Python's
  tie-break (first occurrence in input order among the values tied for the
  highest count), and `FormattedMode`, which models `get_formatted_mode`.
- `Fetcher` (`fetcher.dfy`): the retry loop of `get_member_data` as a method
  with a loop. It is proved equal to a recursive state-machine specification
  (`FetchSpec`), and each promised property is a lemma about that
  specification.
- `Service` (`service.dfy`): the body of the `root` route as a method. It
  loops over providers, appends to three parallel lists and takes three
  independent consensus values. The lists are specified by `Records` and
  `Samples`.

The network is a parameter. It is a function from the attempt number to what
that attempt produces: `Ok(payload)`, `NetErr` (any `RequestException`,
including a bad status from `raise_for_status`) or `ParseErr` (a `ValueError`
from `.json()` that is not also a `RequestException`). Sleeping between attempts is counted, not performed. Console
logging is not modelled.

The source calls `statistics.mode`. Since Python 3.8 it returns the first value,
in input order, among those with the highest count (it counts with an
insertion-ordered `Counter`). The model follows that rule. `ModeIsFirstMode`
proves that the rule picks exactly one value.

A negative amount is rendered the way Python renders it, as `$-` followed by
the digits of its absolute value.

A provider payload that is not a JSON object (a list, a string or a number)
raises `TypeError` when subscripted by a field name, just as `None` does. The
model represents it as `Payload.NotSubscriptable` and skips it.

## Model

| member | source | states |
|---|---|---|
| `Currency.DigitsSpell` | main.py:69 | the decimal digits of a natural number are only digits, spell the number, have no leading zero, and number at most three below 1000 |
| `Currency.GroupGrouped` | main.py:69 | the `,` grouping of the dollar part is one to three leading digits followed by `,ddd` groups, has no leading zero, and spells the number |
| `Currency.Pad2` | main.py:69 | the two cent digits of `n < 100`, the tens digit first and a leading zero when needed |
| `Currency.Pad3` | main.py:69 | a full group of three digits, zero-padded, worth the number |
| `Currency.Amount` | main.py:69 | the unsigned part `{abs(n)/100:,.2f}`: at least four characters, starting with a digit, with the dot third from the end; its full layout is `AmountShape` |
| `Currency.AmountShape` | main.py:69 | an amount is a well-grouped dollar part worth `a / 100`, a dot, and the two digits of `a % 100` |
| `Currency.FormatCents` | main.py:69 | the rendering `f'${n / 100:,.2f}'` of `n` cents: at least five characters, `$` first, and a minus sign second exactly for negative `n`; `FormatCentsShape`, `ParseFormatCents` and `FormatCentsInjective` carry the rest of its contract |
| `Currency.ParseAmount` | main.py:69 | the reference reader for amounts: it accepts only strings that start with a digit and are at least four long; `ParseAmountOfAmount` and `ParseAmountOnlyAmounts` make it the exact inverse of `Amount` |
| `Currency.ParseCurrency` | main.py:69 | the reference reader for renderings: it accepts only strings of at least five characters starting with `$`; `ParseFormatCents` and `ParseOnlyRenderings` make it the exact inverse of `FormatCents` |
| `Currency.ParseAmountOfAmount` | main.py:69 | reading an amount back gives the number of cents it was made from |
| `Currency.GroupUnique` | main.py:69 | every well-grouped numeral is the `,` grouping of its own value, so the grouping is the only spelling the reader accepts |
| `Currency.ParseAmountOnlyAmounts` | main.py:69 | a string the amount reader accepts as `a` is exactly the amount of `a` |
| `Currency.FormatCentsShape` | main.py:69 | a rendering is `$`, then a minus sign exactly for negative amounts, then a well-grouped dollar part worth `abs(n) / 100`, then a dot, then the two digits of `abs(n) % 100` |
| `Currency.ParseFormatCents` | main.py:69 | rendering loses nothing: parsing the rendering of `n` gives back `n` |
| `Currency.ParseOnlyRenderings` | main.py:69 | the converse of `ParseFormatCents`: a string that parses as `n` is exactly the rendering of `n`, so rendering and parsing are mutually inverse |
| `Currency.ParseSignedAmountNonZero` | main.py:69 | the parser reads a minus sign only before a non-zero amount, as Python never prints `$-0.00` for zero cents |
| `Currency.FormatCentsInjective` | main.py:69 | two different amounts never render the same |
| `Currency.FormatTenDollars` | test_main.py:67-68 | `1000` cents render as `$10.00` |
| `Currency.FormatFifteenDollars` | test_main.py:71-72 | `1500` cents render as `$15.00` |
| `Currency.FormatNinetyDollars` | test_main.py:139 | `9000` cents render as `$90.00` |
| `Currency.FormatHundredDollars` | test_main.py:138 | `10000` cents render as `$100.00` |
| `Currency.FormatTenThousandDollars` | main.py:69 | `1000000` cents render as `$10,000.00`, with a thousands separator |
| `Currency.FormatNegativeAmount` | main.py:69 | `-5` cents render as `$-0.05`, as Python prints a negative float |
| `Consensus.Count` | main.py:68 | the number of occurrences of `x` that the mode compares: never more than the length of the list, and zero for a value not in it; `CountIsMultiplicity` and `CountPositive` tie it to the multiset |
| `Consensus.CountIsMultiplicity` | main.py:68 | the recursive occurrence count equals the multiplicity in the multiset of the list |
| `Consensus.CountPositive` | main.py:68 | a value is counted at least once exactly when it occurs in the list |
| `Consensus.ModeIndex` | main.py:68 | the chosen index reaches the highest count of the list, and every earlier index has a strictly lower count |
| `Consensus.Mode` | main.py:68 | `statistics.mode` of a non-empty list: a value of the list whose count no element's count exceeds; `ModeIsFirstMode` adds the first-occurrence tie-break |
| `Consensus.ModeIsMostFrequent` | main.py:68 | the mode occurs in the list, and no value occurs strictly more often |
| `Consensus.ModeIsFirstMode` | main.py:68 | a value is the first-occurring most frequent value if and only if it is `Mode`, so the tie-break picks exactly one value |
| `Consensus.FormattedMode` | main.py:61-69 | `None` exactly for the empty list; otherwise a string that parses back to the first-occurring most frequent value |
| `Consensus.FormattedModeMajority` | test_main.py:67-68 | `[1000, 2000, 1000, 1000, 3000]` gives `$10.00` |
| `Consensus.FormattedModeTieFirst` | test_main.py:71-72 | when all four values tie, the first one wins: `[1500, 2500, 1800, 3000]` gives `$15.00` |
| `Consensus.FormattedModeEmpty` | main.py:65-66 | the empty list gives `None` |
| `Consensus.ModeOfThree` | main.py:68 | of three values the mode is the first, unless the other two agree with each other and not with it |
| `Consensus.ModeOfTwo` | main.py:68 | of two values the mode is the first, whether or not they tie |
| `Fetcher.Step` | main.py:42-59 | the retry loop from attempt `attempt` on: it never goes back, never passes `max_retries` when it starts below it, stops at once with `None` at the limit, and adds fewer sleeps than attempts; `StepBounds` gives the full outcome |
| `Fetcher.FetchSpec` | main.py:40-59 | the whole fetch: at most `max_retries` attempts, none exactly when `max_retries <= 0`, and one sleep fewer than attempts at most; `FetchContract` gives the full outcome |
| `Fetcher.GetMemberData` | main.py:40-59 | the retry loop returns exactly the data, attempt count and sleep count of the state-machine specification |
| `Fetcher.StepBounds` | main.py:42-55 | from any attempt, the machine stays within `max_retries` attempts. All attempts but the last were network errors, with one sleep between each two. The last attempt decides the result |
| `Fetcher.FetchContract` | main.py:40-59 | `max_retries <= 0` gives `None` with no attempt. Otherwise: at most `max_retries` attempts and one sleep fewer; every attempt but the last failed on the network; the payload of `Ok` is returned; `ParseErr` ends with `None`; a final network error happens only at the limit |
| `Fetcher.FetchAllNetErr` | main.py:48-55 | an always-failing endpoint is tried exactly `max_retries` times, with `max_retries - 1` sleeps, and gives `None` |
| `Fetcher.FetchFirstDecisive` | main.py:44-58 | if the first attempt that is not a network error is number `k` within the limit, the fetch ends after `k + 1` attempts and `k` sleeps, with the payload or, for a parse error, `None` |
| `Fetcher.FetchExamples` | test_main.py:50-62 | the test fetches: an always-failing endpoint gives `None` after 3 attempts; one that fails four times succeeds on the fifth of 5 tries; a working one succeeds at once; and, as an extra case beyond those tests, with the default limit of 3 the same four-failure endpoint gives `None` |
| `Service.Records` | main.py:26-30 | the usable records in provider order: never more than there are providers, and each comes from a provider's response |
| `Service.Samples` | main.py:27-29 | each field's list has exactly one entry per usable record |
| `Service.Responses` | main.py:23-25 | one fetch result per provider, with the default retry limit |
| `Service.Reconcile` | main.py:34-38 | a field is `null` exactly when no provider gave a usable record; otherwise it parses back to the first-occurring most frequent value of that field's list |
| `Service.Root` | main.py:17-38 | the route fetches every provider in order, builds the three lists by appending, and returns the consensus of the fetched responses |
| `Service.RecordsAppend` | main.py:23-32 | collecting over two runs of providers gives the records of the first run followed by those of the second |
| `Service.SamplesSkipUnusable` | main.py:26-32 | a provider that returned `None` or a non-object adds nothing to any list |
| `Service.SamplesPosition` | main.py:26-29 | a usable record adds its field to the list at the position given by the number of usable records before it |
| `Service.SamplesParallel` | main.py:27-29 | the three lists stay parallel: entry `j` of each comes from the same record |
| `Service.ReconcileExample` | test_main.py:84-142 | records `{10000, 9000, 1000}`, `{20000, 9000, 5000}` and `{10000, 8000, 1000}` give `$100.00`, `$90.00` and `$10.00` |
| `Service.ReconcileWithFailedProvider` | main.py:26-38 | a failed provider in the middle does not stop the other two from reaching a consensus |
| `Service.ReconcileNoData` | main.py:34-38 | with no usable record, all three fields are `null` |
| `Service.ResponsesFirstTry` | test_main.py:103-128 | providers that answer on the first attempt pass their payloads to the consensus step unchanged |

## Left out

- HTTP plumbing is not modelled: the FastAPI app, the route decorator, `async`, the query-string building, the request timeout and the provider URL list. The model takes one network per provider.
- `Service.Root` accepts any number of providers. The source fixes three.
- Network calls are not modelled. The model does not decide which statuses `raise_for_status` rejects or which bodies `.json()` accepts. Each attempt's outcome is an input.
- A malformed body's branch depends on the installed requests version. Since requests 2.27, `.json()` raises an exception that is both a `RequestException` and a `ValueError`, so the first handler (main.py:48) catches it. The body is then retried like a network error, and the model expresses that as `NetErr`. With older requests it is a plain `ValueError`, handled at main.py:56-58, which the model expresses as `ParseErr`. The model leaves this choice to its input.
- Real sleeping is not modelled. `retry_delay` only sets the length of a pause, so the model counts sleeps instead.
- Console logging is not modelled, because it does not affect the result.
- A JSON object that lacks one of the three keys is not modelled. In the source it raises an uncaught `KeyError` and ends the request; payloads are modelled as complete records or as non-objects.
- Payload field values that are not integers are not modelled.
- `Currency.FormatCents`: the model uses exact integer arithmetic. The source divides in floating point, and for amounts above about 10^15 cents the float loses precision and the printed digits can differ.
