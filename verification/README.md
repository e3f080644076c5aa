# Installment commitments: expansion and scheduling

A Dafny model of the command handler that creates an installment
commitment in a personal-finance backend. An installment commitment is a
purchase or obligation paid over several months. The handler:

1. looks up the command's user and then its account, and fails with "Invalid user" or "Invalid account" when either is missing;
2. builds the commitment and runs the commitment validator, failing with every error message joined by `" \n "`;
3. stores the commitment;
4. expands it into one posting (a "moviment", a ledger movement) per month in `[StartMonth, EndMonth)`. If a posting's date cannot be represented, `DateTime.AddMonths` throws here, after the commitment is stored;
5. asks the background-job client to run a balance update for each posting at that posting's date;
6. returns the commitment's id.

Files:

- `formatting.dfy`: how an `int` is rendered inside an interpolated string, plus a parser that inverts it. Also a first-occurrence search and `String.Join`, with a lemma locating every part inside the joined text.
- `dates.dfy`: `DateTime` on the month axis. A date is its calendar month plus an abstract position inside that month. `AddMonths` fails where `DateTime.AddMonths` throws, and a lemma ties it to the framework's year-and-month arithmetic.
- `installments.dfy`: the commitment and posting records. It holds the posting label and its reader, the expansion loop `SplitIntoMoviments`, and the expansion's specification `IsExpansionOf` with lemmas about it.
- `handler.dfy`: `Handle` and `ScheduleFutureMoviments`. The writes the handler makes are returned as an ordered trace of `Insert` and `Schedule` effects, alongside either the returned id or the thrown exception.

Parameters stand in for what the handler calls but does not define:

- The user and account repositories are maps keyed by id.
- The commitment validator is a function from a commitment to its error messages. None means valid.
- The rendering of the decimal total in labels is a function `show`.
- The values the commitment's constructor computes are a record `ConstructorOutputs`: the id, creation date, end month and per-installment value.

## Model

| member | source | states |
|---|---|---|
| `Installments.SplitIntoMoviments` | src/backend/FS.Api/Application/Commands/Handlers/CreateInstallmentMovimentCommandHandler.cs:59-79 | The expansion succeeds exactly when every covered month's date can be represented; otherwise it fails like the throwing `AddMonths`. On success there are `EndMonth - StartMonth` postings when `StartMonth < EndMonth`, and none otherwise. The k-th (0-based) posting carries running number k+1 in its label `(k+1/Months)-Total:total-Description`. It is dated `CreatedOn` plus `StartMonth + k` months, holds the per-installment value, and copies the category, type, account and user. Dates strictly increase along the list. |
| `Installments.ExpansionIsUnique` | src/backend/FS.Api/Application/Commands/Handlers/CreateInstallmentMovimentCommandHandler.cs:59-79 | The expansion is deterministic: two posting lists that both meet the expansion specification for one commitment are equal. |
| `Installments.InstallmentCountIsMonths` | src/backend/FS.Api/Application/Commands/Handlers/CreateInstallmentMovimentCommandHandler.cs:64 | With `EndMonth = StartMonth + Months`, the exclusive bound yields exactly `Months` postings (none if `Months <= 0`), not `Months + 1`. |
| `Installments.LabelCounterOfLabel` | src/backend/FS.Api/Application/Commands/Handlers/CreateInstallmentMovimentCommandHandler.cs:66 | The `(number/months)` head of a label reads back as the number and month count the label was built from, whatever the total and description say. |
| `Installments.ExpansionLabelsCount` | src/backend/FS.Api/Application/Commands/Handlers/CreateInstallmentMovimentCommandHandler.cs:62-75 | In an expansion, the k-th posting's label reads back as running number k+1 over the commitment's month count. |
| `Installments.ExpansionLabelsDistinct` | src/backend/FS.Api/Application/Commands/Handlers/CreateInstallmentMovimentCommandHandler.cs:66 | No two postings of one commitment have the same description. |
| `Dates.AddMonths` | src/backend/FS.Api/Application/Commands/Handlers/CreateInstallmentMovimentCommandHandler.cs:67 | A shifted date keeps its day and time within the month. When the shift succeeds, the result is later exactly when the count is positive and earlier exactly when it is negative. |
| `Dates.AddMonthsMatchesYearMonth` | src/backend/FS.Api/Application/Commands/Handlers/CreateInstallmentMovimentCommandHandler.cs:67 | Shifting along the month axis reaches the same calendar month as `DateTime.AddMonths`'s year-and-month arithmetic, with C#'s truncating `/` and `%`. It fails exactly when the count is beyond ±120000 or the target year is outside 1..9999. |
| `Installments.ExpansionFitsIff` | src/backend/FS.Api/Application/Commands/Handlers/CreateInstallmentMovimentCommandHandler.cs:64-67 | Every posting date exists exactly when there are no postings, or when the first and last offsets are within ±120000 and land in representable years. |
| `Formatting.IntRoundTrip` | src/backend/FS.Api/Application/Commands/Handlers/CreateInstallmentMovimentCommandHandler.cs:66 | Reading a rendered `int` back gives the same `int`, negative values included. |
| `Formatting.ParseNatOfDecimal` | src/backend/FS.Api/Application/Commands/Handlers/CreateInstallmentMovimentCommandHandler.cs:66 | The decimal digits of a natural number denote that number. |
| `Formatting.DecimalOfParseNat` | src/backend/FS.Api/Application/Commands/Handlers/CreateInstallmentMovimentCommandHandler.cs:66 | Every canonical digit string (non-empty, no leading zero) is the rendering of the number it denotes. Together with the previous row, rendering is a bijection onto canonical digit strings. |
| `Formatting.JoinListsEveryPart` | src/backend/FS.Api/Application/Commands/Handlers/CreateInstallmentMovimentCommandHandler.cs:49 | The joined error text holds every validator message in order. Each message sits at its offset, the separator follows every message but the last, and the last message ends the text. |
| `InstallmentHandler.ScheduleFutureMoviments` | src/backend/FS.Api/Application/Commands/Handlers/CreateInstallmentMovimentCommandHandler.cs:81-90 | The earlier trace is kept unchanged. Exactly one schedule request is appended per posting, in list order, each at that posting's own date. |
| `InstallmentHandler.Handle` | src/backend/FS.Api/Application/Commands/Handlers/CreateInstallmentMovimentCommandHandler.cs:34-57 | A missing user fails with "Invalid user". Otherwise a missing account fails with "Invalid account". Otherwise a non-empty validator result fails with its messages joined by `" \n "`. These failures make no write. Otherwise, if some posting date cannot be represented, the call fails after storing the commitment and schedules nothing. It succeeds exactly when both lookups succeed, the validator reports nothing and every date exists. On success it returns the commitment's id. The trace is then one insert of the commitment, followed by one schedule request per expanded posting, in order, each at the posting's date. In every outcome, the only insert is first and everything after it is a schedule request. |

## Left out

- The account mapper (`AccountEntityToAccountDomainMapper`) is not part of this model. It only null-checks and copies fields, and delegates to mappers that are not available.
- The `InstallmentMoviment` constructor is not part of this model, so how `Id`, `CreatedOn`, `EndMonth` and `InstallmentsValue` are derived is not modelled. They are inputs. The total is therefore not related to the per-installment value: neither rounding nor "installments sum to the total" is stated.
- The rules of `InstallmentMovimentValidator` are not part of this model. The validator is a function parameter that returns error messages, and the commitment is valid exactly when it returns none.
- The `Moviment` constructor stamps a creation time that `OverrideCreatedDate` replaces at once. The model builds each posting with its final date. Posting ids, which that constructor generates, are not modelled.
- `DateTime.AddMonths` clamps the day to the target month's length; the model keeps the day and time as an abstract position within the month and does not clamp it.
- The `DateTimeOffset`/UTC conversion when scheduling is not modelled, including the exception it can raise for a date at the very edge of the representable range. A posting is scheduled at its own date.
- Rendering of the decimal total inside the label depends on the current culture. It is an uninterpreted function parameter `show`. The `int` parts of the label are rendered with ASCII digits and a leading ASCII `-`; cultures with another negative sign are not modelled.
- The `(int)` cast of `StartMonth` is not modelled. The declared type of `StartMonth` is not available, so the model takes it as an `int` already.
- `Handle` does not model the repositories' and job client's own failures, or the balance update the scheduled jobs later run (`ITransactionService.CreateOrUpdateBalance`). It also does not model async/await and the cancellation token.
- `Handle` checks the account only after the user lookup succeeds. Lookups are reads, so the model takes both from maps and records only writes in the trace.

## Notes

- The first posting is dated `StartMonth` months after `CreatedOn`, not at `CreatedOn` itself. The i-th (0-based) posting is at `StartMonth + i`.
- The month loop's bound is exclusive. Whenever `EndMonth = StartMonth + Months`, this produces exactly `Months` postings (`InstallmentCountIsMonths`). The label's denominator is `Months` itself, not the number of postings, so the two agree only under that relation.
