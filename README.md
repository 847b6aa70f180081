# Inventario stock engine in Dafny

This project models the stock accounting engine of the Inventario backend
(`StockService`), together with the two records it changes: `Batch` (one lot
of a product) and `Movement` (one entry of the append-only stock ledger).

The store is a `Store` class. It holds:
- the batches, as a sequence in creation order;
- the movement ledger, as a sequence in append order;
- the next free batch id;
- a ghost sequence with the signed change of stock that each movement stands for.

The engine operations are its methods:
- `RegisterEntry` is `registrar_entrada`;
- `RegisterExit` is `registrar_salida`;
- `AdjustStock` is `ajustar_stock`;
- `MarkExpired` is `marcar_vencido`.

Each method is all-or-nothing, as `@transaction.atomic` makes it. Its one
failure is reported as a value before anything changes.

The pure parts are functions with lemmas about them:
- the lot-code generator `_generate_batch_code` (`BatchCode`);
- the FEFO exit query and its greedy walk (`Fefo`);
- `stock_total` and the ledger's conservation law (`Ledger`).

The exit loop itself is an imperative method, `StockService.TakeFefo`. It
works on the rows and the ledger as values and is proved to compute
`Fefo.Walk`.

The store invariant `Valid()` holds after every operation. It says:
- batch ids increase with creation;
- no product has two batches with the same code;
- prices fit their column;
- no batch holds negative stock;
- every movement belongs to an existing batch;
- conservation holds: each batch's available quantity is what replaying its
  movements gives, and its received quantity is what its IN movements record.

`Ledger.ConservedBalance` restates conservation as the ledger's balance: received
minus available equals OUT plus EXPIRED minus the net of the ADJUST movements.

Modules follow the source files:

| file | module | source |
|---|---|---|
| wrappers.dfy | Wrappers | `Option`, `Result`, `Outcome` |
| batch.dfy | BatchModel | backend/inventario/models/batch.py |
| movement.dfy | MovementModel | inventario/models/movement.py |
| batch_code.dfy | BatchCode | `_generate_batch_code` |
| fefo.dfy | Fefo | the exit query and loop of `registrar_salida` |
| ledger.dfy | Ledger | `stock_total` and the ledger |
| stock_service.dfy | StockService | the `StockService` operations |

Choices the model makes:
- **Dates.** A date is an optional day number.
- **Prices.** A price is a whole number of cents.
- **Null expiration dates.** Where a batch without an expiration date sorts is
  decided by the database, not the code. It is the parameter `NullPlacement`
  of `RegisterExit`.
- **Batch ids.** They come from the store's counter `nextId`, like an
  auto-increment column.
- **Received time.** `received_at` (`auto_now_add`) is a parameter of
  `RegisterEntry`, because the model has no clock.
- **Duplicate codes.** The code does not check for a duplicate code. The
  database's `unique_batch_code_per_product` constraint refuses the row,
  and the transaction rolls back. The model returns `Err(DuplicateCode)` and
  changes nothing.

Behaviour of the code that the model keeps as it is:
- **Split exits.** An exit takes from each batch only what that batch holds.
  An exit of 8 against a batch of 5 expiring first and a batch of 10 records
  two OUT movements: 5 from the first batch, then 3 from the second.
  `Fefo.ExitOfEight` proves this.
- **No validation inside the service.** The service checks neither that a
  quantity is positive nor that a price is not negative. The request
  serializers of the backend views enforce `min_value=1` on quantities. The
  legacy routes `products/<id>/stock/in/` and `products/<id>/stock/out/`
  (`StockInView` and `StockOutView`) only refuse a missing or empty quantity
  before passing `int(quantity)` to the service. Through them, `"0"` reaches
  `registrar_entrada` and a negative number reaches `registrar_salida`, where
  it would raise stock. The model takes `quantity > 0` as a precondition of
  entry and exit, and puts no sign condition on the price.
- **No upper bound on stock.** An adjustment may raise a batch's stock above
  what it received. The model keeps only `available >= 0`.
- **Zero adjustments.** An adjustment to the current quantity still records an
  ADJUST movement of 0.

## Model

| member | source | states |
|---|---|---|
| BatchModel.HasCode | backend/inventario/models/batch.py:46-51 | true exactly when some batch of the product already carries the code, the collision the unique constraint refuses |
| BatchModel.AppendKeepsCodesUnique | backend/inventario/models/batch.py:46-51 | adding a batch whose code its product does not use keeps codes unique per product (absent codes never collide) |
| BatchModel.SameRowsKeepRules | backend/inventario/models/batch.py:41 | changing only available quantities keeps ids in creation order, codes unique, and ids, products and prices as they were |
| MovementModel.TypeCode | inventario/models/movement.py:6-12 | each movement type's stored code is non-empty and fits the column's 7 characters |
| MovementModel.ParseTypeCode | inventario/models/movement.py:6-12 | a stored code that is accepted names the type whose code it is |
| MovementModel.TypeCodeRoundTrip | inventario/models/movement.py:6-12 | every type is one of the four choices and reads back as itself |
| Ledger.StockTotal | backend/inventario/services/stock_service.py:127-131 | `stock_total`: the product's total is not negative when no batch is, and 0 when the product has no batch |
| Ledger.StockTotalAppend | backend/inventario/services/stock_service.py:127-131 | a new batch adds its stock to its own product's total and to no other |
| Ledger.StockTotalUpdate | backend/inventario/services/stock_service.py:127-131 | changing one batch's stock moves its product's total by the difference and leaves other products' totals alone |
| Ledger.NetOfUnused | inventario/models/movement.py:5 | a batch no movement refers to has net change 0 and nothing received |
| Ledger.LedgerBalance | inventario/models/movement.py:5-15 | replaying a batch's movements gives IN minus OUT minus EXPIRED plus the net of the ADJUSTs |
| Ledger.ConservedBalance | backend/inventario/services/stock_service.py:31-125 | in a conserved store, received minus available is OUT plus EXPIRED minus the net ADJUST of the batch |
| Ledger.RecordKeepsConserved | backend/inventario/services/stock_service.py:72-125 | changing one batch's stock by a signed amount while appending a movement of that batch with a matching sign keeps the ledger conserved |
| Ledger.EntryKeepsConserved | backend/inventario/services/stock_service.py:34-49 | adding a fresh batch with its IN movement of the received quantity keeps the ledger conserved |
| Ledger.LinkedAppend | inventario/models/movement.py:5 | appending a movement of an existing batch keeps every movement linked to a batch |
| Ledger.LinkedSameRows | inventario/models/movement.py:5 | changing stock quantities keeps every movement linked |
| BatchCode.Decimal | backend/inventario/services/stock_service.py:19 | the decimal form of a number is a non-empty run of digits with no leading zero, "0" for zero |
| BatchCode.Pad | backend/inventario/services/stock_service.py:19 | `04d`: at least four digits; exactly four when the number has at most four; the plain decimal form when it has more |
| BatchCode.LastSegment | backend/inventario/services/stock_service.py:13 | `split('-')[-1]`: the suffix after the last `-`, containing no `-`, the whole string when there is none |
| BatchCode.ParseNat | backend/inventario/services/stock_service.py:13-16 | parsing succeeds exactly on a non-empty string of digits |
| BatchCode.Latest | backend/inventario/services/stock_service.py:10 | the company's batch with the highest id, or none exactly when the company has no batch |
| BatchCode.NextNumber | backend/inventario/services/stock_service.py:11-18 | the next lot number is always at least 1 |
| BatchCode.NextBatchCode | backend/inventario/services/stock_service.py:10-19 | `_generate_batch_code`: a `LOTE-` code whose last segment parses to the next number after the code of the company's latest batch |
| BatchCode.NextWithoutNumber | backend/inventario/services/stock_service.py:11-18 | when the latest batch's code is null, empty or does not end in a number, the next code is numbered 1 |
| BatchCode.NextAfterNumber | backend/inventario/services/stock_service.py:13-14 | when the latest batch's code ends in the number v, the next code is numbered v + 1 |
| BatchCode.DecimalRoundTrip | backend/inventario/services/stock_service.py:13-19 | reading a number's decimal form gives the number back |
| BatchCode.LeadingZeros | backend/inventario/services/stock_service.py:13-19 | zero padding does not change the number read |
| BatchCode.PadRoundTrip | backend/inventario/services/stock_service.py:13-19 | the padded number parses back to the number |
| BatchCode.LastSegmentAfter | backend/inventario/services/stock_service.py:13 | what follows the last separator is the last segment |
| BatchCode.FormatCode | backend/inventario/services/stock_service.py:19 | `LOTE-{company}-{n:04d}`: starts with `LOTE-`, and its last segment is the padded number, which parses back to n |
| BatchCode.CodeSuccessor | backend/inventario/services/stock_service.py:13-14 | after `LOTE-{c}-{n}` the next number is n + 1 |
| BatchCode.FormatCodeInjective | backend/inventario/services/stock_service.py:19 | different lot numbers give different codes |
| BatchCode.FirstCode | backend/inventario/services/stock_service.py:17-19 | a company with no batch gets the code numbered 1 |
| BatchCode.NextAfterLatest | backend/inventario/services/stock_service.py:10-19 | if the company's latest batch has code `LOTE-{c}-{n}`, the next default code is `LOTE-{c}-{n+1}` |
| BatchCode.CompanySevenCodes | backend/inventario/services/stock_service.py:10-19 | company 7 starts at `LOTE-7-0001`, which is followed by `LOTE-7-0002` |
| Fefo.Precedes | backend/inventario/services/stock_service.py:59 | `order_by("expiration_date", "id")`: an earlier expiration date sorts first, with nulls first or last as the database places them, and equal dates sort by id |
| Fefo.PrecedesStrictTotal | backend/inventario/services/stock_service.py:59 | `(expiration_date, id)` order is irreflexive, asymmetric, transitive and total on batches with different ids |
| Fefo.Candidates | backend/inventario/services/stock_service.py:58 | the positions of exactly the product's batches with stock above 0, each once, in table order |
| Fefo.Insert | backend/inventario/services/stock_service.py:59 | inserting a position adds exactly it, keeping positions distinct |
| Fefo.Sort | backend/inventario/services/stock_service.py:59 | sorting keeps exactly the same positions, distinct if they were |
| Fefo.FefoOrder | backend/inventario/services/stock_service.py:56-60 | the exit query lists a position exactly when its batch is of the product and has stock, each once |
| Fefo.InsertSorted | backend/inventario/services/stock_service.py:59 | inserting into a sorted sequence keeps it sorted |
| Fefo.SortSorted | backend/inventario/services/stock_service.py:59 | sorting gives strict `(expiration_date, id)` order |
| Fefo.FefoOrderSorted | backend/inventario/services/stock_service.py:56-60 | the exit query's result is in strict `(expiration_date, id)` order |
| Fefo.SortedUnique | backend/inventario/services/stock_service.py:59 | two strictly sorted sequences of the same positions are equal, so the query's order is determined |
| Fefo.SumCandidates | backend/inventario/services/stock_service.py:62-131 | the stock of the candidates is the product's stock total |
| Fefo.FefoTotalIsStockTotal | backend/inventario/services/stock_service.py:62-131 | the total the exit checks equals `stock_total(product)` |
| Fefo.Walk | backend/inventario/services/stock_service.py:66-94 | the loop keeps the number of rows and records at most one movement per batch walked; `WalkOuts` states each movement |
| Fefo.WalkFrame | backend/inventario/services/stock_service.py:66-94 | the walk changes only available quantities, and only at the positions it walks |
| Fefo.Taken | backend/inventario/services/stock_service.py:72-94 | the greedy amount for a batch never exceeds its stock |
| Fefo.WalkGreedy | backend/inventario/services/stock_service.py:66-94 | every walked batch loses exactly the greedy amount: fully used ones drop to 0, the last one touched by the remainder, later ones nothing |
| Fefo.WalkOutAt | backend/inventario/services/stock_service.py:66-94 | the k-th OUT movement exists exactly when the earlier batches did not cover the request, is on the k-th batch, and records the positive greedy amount |
| Fefo.WalkOuts | backend/inventario/services/stock_service.py:66-94 | all OUT movements of the walk as `WalkOutAt` describes each, at most one per batch |
| Fefo.WalkSum | backend/inventario/services/stock_service.py:66-94 | the OUT movements sum to the request, or to all the stock walked when that is less |
| Fefo.WalkTotal | backend/inventario/services/stock_service.py:66-131 | taking from a product's batches lowers its total by exactly what the OUT movements record |
| Fefo.ExitAccounting | backend/inventario/services/stock_service.py:66-94 | a coverable exit records OUT amounts summing to the request, lowers the stock total by it, leaves no batch negative and other products untouched |
| Fefo.ExitRefusal | backend/inventario/services/stock_service.py:62-64 | the exit's shortfall test on the candidates is the same as `stock_total(product) < quantity` |
| Fefo.WalkStep | backend/inventario/services/stock_service.py:68-94 | one pass of the loop: take `min(available, rest)` from the next batch, record an OUT of it, continue with the others |
| Fefo.FiveThenTenOrder | backend/inventario/services/stock_service.py:56-60 | with a batch of 5 expiring before a batch of 10, the query lists the first, then the second |
| Fefo.WalkFiveThenTen | backend/inventario/services/stock_service.py:66-94 | walking those two batches for 8 leaves 0 and 7 and records OUTs of 5 and 3 |
| Fefo.ExitOfEight | backend/inventario/services/stock_service.py:56-94 | an exit of 8 against those batches empties the first, takes 3 from the second and records two OUT movements |
| StockService.EntryCode | backend/inventario/services/stock_service.py:31-32 | a supplied non-empty code is kept as it is; otherwise the code is a `LOTE-` code whose last segment parses to the company's next lot number |
| StockService.RecordKeepsConsistent | backend/inventario/services/stock_service.py:72-125 | changing one batch's stock to a non-negative value with a matching movement keeps the store invariant |
| StockService.EntryKeepsConsistent | backend/inventario/services/stock_service.py:34-49 | adding a fresh batch with an unused code and its IN movement keeps the store invariant |
| StockService.TakeStep | backend/inventario/services/stock_service.py:72-94 | one pass of the exit loop stays on the walk and keeps the store invariant |
| StockService.TakeFefo | backend/inventario/services/stock_service.py:66-94 | the exit loop's rows and ledger are exactly the walk's, and the store invariant holds after it |
| StockService.Abs | backend/inventario/services/stock_service.py:106 | `abs(x)` is x or -x, never negative |
| StockService.Store.constructor | backend/inventario/services/stock_service.py:6 | an empty store satisfies the invariant |
| StockService.Store.RegisterEntry | backend/inventario/services/stock_service.py:31-51 | refused, with nothing changed, exactly when the product already has the code; otherwise exactly one new batch with received = available = quantity and one IN movement of quantity with note "Ingreso de producto"; no other batch changes |
| StockService.Store.RegisterExit | backend/inventario/services/stock_service.py:55-94 | refused, with nothing changed, exactly when the product's stock total is below the quantity; otherwise batches and ledger are the FEFO walk's, and the stock total drops by exactly the quantity |
| StockService.Store.AdjustStock | backend/inventario/services/stock_service.py:98-108 | the batch's stock becomes the new quantity and one ADJUST movement of `abs(new - old)` is appended, even when 0, with note defaulting to "Ajuste manual"; nothing else changes |
| StockService.Store.MarkExpired | backend/inventario/services/stock_service.py:112-125 | an empty batch is left alone with no movement; otherwise its stock becomes 0 and one EXPIRED movement of the previous stock is appended |
| StockService.Store.MarkExpiredTwice | backend/inventario/services/stock_service.py:112-125 | two expiries in a row record exactly one EXPIRED movement, and only if the batch had stock |

## Left out

- **HTTP views and API routing** (`backend/inventario/views/*`, `inventario/views/*`, `API.py`).
  These are request parsing, status codes and tenant resolution. "The product or batch belongs to
  the caller's company" is not modelled.
- **The direct IN movement path in `backend/inventario/views/movement_view.py`.** It creates an IN
  movement without changing a batch. It is view code, not an engine operation, and it breaks the ledger.
- **Serializers.** The `min_value=1` checks of the backend views' serializers are not modelled.
  The legacy `stock/in` and `stock/out` routes do not have them (see the preconditions below).
- **Concurrency.** Row locking and concurrent exits or code generation are out of scope, because
  the model is sequential.
- **Other failures.** Deleting batches and the cascade to their movements, the admin display
  code, authentication and the frontend are left out. So are database failures other than the
  unique code constraint.
- **Storage bounds.** The 32-bit range of integer columns, `max_length` of text columns and
  `created_at` timestamps are not modelled. The ledger's order stands in for `ordering = ["id"]`.
- **Batch identity.** The service takes a batch object. The model takes the batch's position in
  the store, and a saved row is its new value in the sequence.
- **Exit save order.** `StockService.TakeFefo` computes the new rows and ledger as values, and
  `Store.RegisterExit` assigns them after the loop. The order of the individual `save()` and
  `create()` calls inside the transaction is not modelled.
- StockService.Store.RegisterEntry: requires `quantity > 0` and a price within the decimal
  column (10 digits, 2 after the point). The service checks neither. The backend serializers
  check the quantity and the database checks the price. The legacy `stock/in` route
  (`inventario/views/stock_view.py`) passes any non-empty `int(quantity)`, including 0 and
  negative numbers. The model does not cover such entries.
- StockService.Store.RegisterExit: requires `quantity > 0`. The backend serializers enforce
  this, but the legacy `stock/out` route passes any non-empty `int(quantity)`. With a negative
  quantity the source would raise stock, and the model does not cover such exits.
- StockService.Store.AdjustStock: requires `newQuantity >= 0`, which the service does not check.
  A negative batch would break the store's non-negativity invariant.
- BatchCode.ParseNat: accepts only non-empty runs of ASCII digits. Python's `int()` also accepts
  surrounding whitespace, a sign, underscores and other Unicode digits. Such codes fall back to 1
  here but not in the source.
