# Invoice pipelines with a Merkle audit seal — Dafny model

This project models the core of an invoice-processing benchmark. It has two parts.

- `auditing.dfy` (module `Auditing`) models `compute_merkle_root`. The function
  hashes each transaction string to form the leaves. It then pads an odd level by
  repeating its last node, hashes the concatenation of each neighbouring pair from
  left to right, and repeats until one digest is left. An empty list has no root.
  The function `MerkleRoot` is the specification. The method `ComputeMerkleRoot`
  is the loop as written, with the odd level padded in place and the next level
  built by appending. It is proved to compute `MerkleRoot`. Lemmas cover padding
  and tamper evidence.
- `processing.dfy` (module `Processing`) models the two pipelines. Each reads the
  first CSV row of an invoice file. Each exits through a fixed order of early
  returns and returns a five-field `ProcessingResult`: status, error details,
  Merkle root, invoice id and error type.
  - The manual baseline (`RunBaselineProcess`) never produces a root.
  - The automated run (`RunKognitosProcess`) grows an append-only transaction log:
    start marker, instructions digest, service status, and on success a completion
    marker. At every exit it seals whatever the log holds with `ComputeMerkleRoot`.

The SHA-256 hex digest is a parameter `h: string -> string`. The instructions
digest is therefore the opaque value `h(KognitosSteps)`. Three things become
parameters: the CSV row (or the message of the exception raised while reading it),
the time-scaling factor, and each `random.random()` draw. A draw is a `real`
compared against the source's rate constant (0.07, 0.01, 0.005). The only effect
of a sleep that the model keeps is whether it raises. A zero factor raises
`ZeroDivisionError`. A negative factor gives a negative sleep length, which
`time.sleep` refuses.

The code has no data-quality issue detection or remediation. Its error rates are
fixed (0.07, 0.01, 0.005), and `ProcessingResult` has exactly five fields.

One behaviour of the code is worth knowing. `data.get("invoice_id", "UNKNOWN")`
turns a row with no `invoice_id` column into the non-empty id `"UNKNOWN"`, so the
manual pipeline's missing-id check does not fire for it. The mocked service reads
the same column with `data.get("invoice_id")`, which gives `None` and so fails.
The model keeps both readings: `ReadInvoiceId` for the first, the `"invoice_id" !in
data` test for the second.

## Model

| member | source | states |
|---|---|---|
| `Auditing.MerkleRoot` | src/auditing.py:24-53 | The result is absent exactly when the list is empty, and a one-element list gives exactly `h` of its element. |
| `Auditing.ComputeMerkleRoot` | src/auditing.py:8-53 | The loop (leaf hashing, in-place padding of odd levels, pairwise reduction until one node is left) returns `MerkleRoot` of its input, so it returns `None` exactly for the empty list. |
| `Auditing.HashPairs` | src/auditing.py:40-47 | The inner pass over an even level returns one node per pair, and node `k` is `h(level[2k] + level[2k+1])`, in left-to-right order. |
| `Auditing.NextLevel` | src/auditing.py:37-50 | One pass (pad, then pair) leaves ceil(n/2) nodes: strictly fewer when n > 1, and still at least one when n > 0. This is the termination measure. |
| `Auditing.OddPaddingIsInvisible` | src/auditing.py:37-38 | For a list of odd length at least three, repeating the last entry explicitly gives the same root as the implicit duplication. |
| `Auditing.ThreeLikeFour` | src/auditing.py:37-38 | `root([a, b, c]) == root([a, b, c, c])` for all entries. |
| `Auditing.NextLevelsDiffer` | src/auditing.py:42-47 | One pass maps two different digest levels of equal length to different next levels, provided the pair hashes of that pass do not collide. |
| `Auditing.RootsDiffer` | src/auditing.py:36-50 | Two different digest levels of equal length reduce to different roots, provided no hash collision occurs between the two reductions. |
| `Auditing.TamperEvident` | src/auditing.py:12-14 | Changing any entry of a list, or the order of its entries, while keeping its length changes the root. This assumes fixed-length digests and no collision between the two computations. |
| `Processing.SleepFault` | src/processing.py:74-76 | The simulated sleep raises exactly when the scaling factor is not positive. |
| `Processing.MockKognitosApi` | src/processing.py:124-138 | The call raises exactly when the sleep does. Otherwise it fails exactly when `invoice_id` is missing or empty, with the fixed reason. On success it echoes the record's `total`, or absent when the record has none. |
| `Processing.RunBaselineProcess` | src/processing.py:59-122 | The root is absent on every path, and the checks run in a fixed order. An entry-error draw below 0.07 gives `data_quality` "incorrect total" before the id is examined. An empty id gives `data_quality` only after that draw passed. `system_operational` needs a non-empty id and both earlier checks passed. Success has no details and no error type. Exceptions give `unknown_baseline_error` with the `failed_<name>` fallback for an empty id. Every other exit reports the id as read. |
| `Processing.RunKognitosProcess` | src/processing.py:140-211 | At every exit the root is `MerkleRoot` of the final log. It is absent exactly when reading failed before the start marker. The log is a prefix of start, instructions digest, service status, completion, in that order. A missing or empty id gives `data_extraction` with exactly three entries sealed. `system_processing` needs the service to have accepted the record. The run succeeds exactly when the row is read, the factor is positive, the id is present and non-empty, and the draw is at least 0.005. Success seals four entries ending in `PROCESS_COMPLETE:<id>`, with no details and no error type. Exceptions give `unknown_kognitos_error` with the fallback id. Every other exit reports the id as read. |

## Left out

- TamperEvident: the source's docstring claims tamper evidence unconditionally. The lemma assumes two things: every digest has length 64, and `h` has no collision between the strings hashed by the two computations. A hash on unbounded input cannot be injective, so a collision-freedom assumption is unavoidable.
- SHA-256 and hex encoding are not modelled. They are the parameter `h`.
- Python floats are modelled as reals. The draws and the rates 0.07, 0.01 and 0.005 are compared exactly, not in binary floating point.
- The random draws are parameters: the sampled sleep lengths and each `random.random()` result. The global seed state (`set_random_seed`, `_random_seed`) is left out as ambient library configuration.
- The sleeps are kept only as the exception they may raise. The model does not cover a tiny positive factor that makes the sleep length overflow (`OverflowError`).
- File names are modelled as strings of Unicode characters. A name with bytes that cannot be decoded reaches the log surrogate-escaped, and strict UTF-8 encoding before hashing then raises. That exception is raised again by the seal inside the handler and escapes `run_kognitos_process`. The model does not capture this path: in it, every exception gives `unknown_kognitos_error`.
- File opening and `csv.DictReader` are left out. The first row is a `map<string, string>`, and any exception while reading it is `Raised(message)`.
- `csv.DictReader` fills the missing cells of a short row with `None`. That case is not modelled: every present column has a string value.
- The `steps` argument of `_mock_kognitos_api` is accepted and ignored, as in the source. The `extracted_total` it returns is modelled but never read by the caller.
- The input list of `compute_merkle_root` is a Dafny sequence, which is a value. That the caller's list is never modified therefore holds by construction and is not stated as a contract.
- benchmark.py is not part of this model: it does pandas aggregation, report printing, timing and float cost arithmetic.
- generate_invoices.py is not part of this model: it produces random synthetic data and writes CSV files.
- src/database.py is not part of this model: it is SQLite persistence.
