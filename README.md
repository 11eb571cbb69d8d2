# sysinfo2discord: the presence publisher's logic, modelled in Dafny

`discord.py` samples CPU, memory, disk and network readings through psutil and publishes a
rotating two-line summary to a desktop presence service (pypresence). Around the library calls sit
three pieces of logic of its own, and this project models and verifies them:

- **`human_readable`** (module `Units`): the loop that divides a byte count by 1024 until its
  magnitude is below 1024, walking the units "", K, M, G, T, P. The model works on mathematical
  reals. It returns the magnitude and the unit label (`Readable`), or `NotAvailable` for "N/A". It
  keeps the loop's behaviour past the last unit exactly as written: from 1024^6 on, the loop has
  divided six times, so it prints `x / 1024^6` and labels that "P". The value of x in peta units
  is `x / 1024^5`, so the printed number is 1024 times too small (`BeyondPetaLabelledP`).
- **`get_presence_variants`** (module `Variants`): the ordered pool of candidate (details, state)
  pairs. A candidate is a `Kind` tag plus its two lines. Each line is a sequence of f-string
  pieces: literal text, a number with its count of decimals, or a byte count after
  `human_readable`. The method builds the pool by guarded appends. It is proved against
  `IsPool`: candidates appear in the order of the appends, a kind appears exactly when its facets
  are present, and each candidate is formatted as its append formats it. Lemmas derive from
  `IsPool` alone that the pool is fully determined, what its size is, that it opens with CPU & RAM,
  and when the swap and frequency candidates appear.
- **The connection and throttle state** (module `Publisher`): class `Session` has the fields
  `connected` (the module-level `RPC` is not `None`) and `last` (`last_rpc_update_time`), plus a
  ghost history of send-attempt times. `Connect`, `Update` and `Close` model `initialize_rpc`,
  `update_discord_presence` and `close_rpc`. `Tick` is one pass of the main loop. `Run` is `main`
  after argument parsing: the start-up guard, the loop over a given finite sequence of passes, and
  the close on exit. In the code, `main` never reaches that guard without pypresence:
  `check_dependencies` returns False (discord.py:308-309, 324) and `main` calls `sys.exit(1)`
  (discord.py:333-334). So the guard at discord.py:341 can only fire for the placeholder id. The
  model's library-absent branch returns normally instead, with the same effect on the state. The object invariant `Valid()` says three things. A handle is held only when
  the library is present and the id is not the placeholder. `last` is the time of the latest send
  attempt. Every attempt is at least `interval` after the previous one.

The facets of a snapshot are in module `Facets`. Each reading is an `Option`, so a missing
reading removes only what depends on it. Inputs from outside are parameters of `Tick`: the clock,
the snapshot, and whether the presence client's connect and update calls succeed. The random
choice of a candidate is "some index of the pool" (a `:|` choice).

Three points of the code worth stating:
- CPU & Disk needs only the disk reading, and RAM & Net needs only the network reading. Neither guard looks at the other facet.
- The swap candidate does not depend on the OS display flag. Only the frequency candidate does.
- Past the last unit, the printed magnitude is `x / 1024^6`, as described above.

## Model

| member | source | states |
|---|---|---|
| `Units.HumanReadable` | discord.py:165-174 | The result is "N/A" exactly when the input is None. Otherwise it is the magnitude and unit label of `HumanSize`: the loop stops at the first unit where the divided value is below 1024, or after six divisions with label "P". |
| `Units.DivisionsIsFirstUnit` | discord.py:170-173 | The chosen unit index k is at most 6. Every earlier unit j had \|x\| >= 1024·1024^j. When k < 6, \|x\| < 1024·1024^k. So k is the first unit that fits. |
| `Units.DivisionsByThresholds` | discord.py:170-174 | Unit k is chosen if and only if 1024^k <= \|x\| (or k = 0) and \|x\| < 1024^(k+1) (or k = 6, units exhausted). |
| `Units.MagnitudeInUnit` | discord.py:170-173 | For units "" to "P", the unit label is that prefix plus the suffix. The magnitude is below 1024 in absolute value, at least 1 past the first unit, and times 1024^k it gives back x. |
| `Units.BeyondPetaLabelledP` | discord.py:170-174 | For \|x\| >= 1024^6 the result is labelled "P" with magnitude x / 1024^6. That magnitude is 1024 times smaller than x / 1024^5. |
| `Units.MemoryExamples` | discord.py:165-174 | With suffix "B", 4294967296 bytes read as 4.0 "GB" and 17179869184 bytes as 16.0 "GB", which is the RAM line "(4.0 GB/16.0 GB)". 1023 bytes stay 1023.0 "B". |
| `Variants.PresenceVariants` | discord.py:176-223 | The built list satisfies `IsPool`: it is in append order with no kind twice. A kind is present if and only if its guard holds. Every entry is formatted as its append formats it. |
| `Variants.RankedUnique` | discord.py:176-223 | Two kind sequences that are both in append order and have the same members are equal. So order and membership fix the pool. |
| `Variants.EligibleBelowRules` | discord.py:181-221 | The eligible kinds among the first n appends are in append order. They are exactly the kinds of rank below n whose guard holds. |
| `Variants.PoolKinds` | discord.py:178-223 | The kinds of any pool are exactly the eligible kinds, in the fixed order CPU&RAM, Disk&Net, CPU&Disk, RAM&Net, frequency, swap. |
| `Variants.PoolSizeFormula` | discord.py:187-223 | Pool size = 1 + [disk∧net] + [disk] + [net] + [frequency∧show_os] + [swap_total>0 ∧ swap_percent>5]. |
| `Variants.PoolStartsWithCpuRam` | discord.py:178-185 | The pool is never empty. Its first entry is the CPU & RAM candidate, whatever the other facets are. |
| `Variants.OnlyCpuAndMemory` | discord.py:176-223 | With no disk, no net, no swap and show_os off, the pool is the CPU & RAM candidate alone. |
| `Variants.SwapCandidateIsStrict` | discord.py:216-221 | The swap candidate is present if and only if the swap keys exist with total > 0 and percent strictly above 5. It is absent at exactly 5 percent and when the keys are missing. |
| `Variants.FrequencyCandidateNeedsShowOs` | discord.py:208-214 | The frequency candidate is present if and only if there is frequency data and show_os is set. |
| `Publisher.WellSpacedSnoc` | discord.py:365-374 | A send attempt at least `interval` after the latest one (or after time 0) keeps the attempt history well spaced. |
| `Publisher.SpacingAnyPair` | discord.py:365-374 | With a non-negative interval, any two send attempts i < j of a well-spaced history are at least `interval` apart, not only consecutive ones. |
| `Publisher.Session.constructor` | discord.py:37-38 | The start-up state: no handle, `last` = 0, empty history. |
| `Publisher.Session.Connect` | discord.py:225-245 | Without the library, or with the id "YOUR_CLIENT_ID_HERE", it returns false and changes nothing. Otherwise a handle is held afterwards exactly when the connect call succeeded, and the result says so. |
| `Publisher.Session.Update` | discord.py:247-286 | Something is sent exactly when a handle was held. What is sent is an eligible, correctly formatted pool entry. Afterwards a handle is held exactly when one was held before and the send succeeded. |
| `Publisher.Session.Close` | discord.py:288-297 | The close call is attempted exactly when a handle is held and the library is present. It always ends without a handle. |
| `Publisher.Session.Tick` | discord.py:355-376 | Connect is tried exactly when no handle was held. A send is attempted exactly when a handle is held after that, now − last >= interval, and CPU and memory were sampled. In that case `last` becomes now and now joins the history, even if the send fails; otherwise both are unchanged. Afterwards a handle is held as the send outcome says, or as after the connect. A candidate sent is an eligible, correctly formatted pool entry of the snapshot. The invariant `Valid()` (well-spaced attempts) is kept. |
| `Publisher.Session.Run` | discord.py:341-384 | Without the library or with the placeholder id, nothing changes and nothing is sent. Otherwise it also returns, for each send attempt, the pass that made it. Those are exactly the passes `DueUpTo` selects by folding the rule of `Tick` over the given passes, starting from the handle held and `last` = 0. Each attempt is `Tagged` by its pass: its clock reading, and a candidate of its snapshot. The history stays well spaced (`Valid()`). The run ends without a handle, because close is always attempted on the way out. |
| `Publisher.DueStep` | discord.py:362-374 | One pass performed as `Tick` does, from the state the earlier passes leave, adds its number to the due passes exactly when it sends. It leaves the throttle state that `StateAfter` gives for one more pass. |
| `Publisher.DueUpToOrdered` | discord.py:355-374 | The due passes among the first n are strictly increasing pass numbers below n, so at most one attempt per pass. |
| `Publisher.OneDuePass` | discord.py:362-374 | A single pass with CPU and memory sampled and at least `interval` after the start sends exactly when a handle is held or the connect succeeds. |
| `Publisher.TaggedOrder` | discord.py:355-374 | A history tagged by clock readings (`TaggedTimes`) has one pass per attempt. The passes are strictly increasing, so there is at most one attempt per pass. Each is below the bound, and attempt m happened at the clock reading of pass `passes[m]`. |
| `Publisher.TaggedSnapshots` | discord.py:359-371 | In a history tagged by candidates (`TaggedSent`), attempt m sent a candidate of pass `passes[m]`'s snapshot. CPU and memory were sampled for that pass, and the candidate is an eligible, correctly formatted pool entry. |
| `Publisher.PassesSpaced` | discord.py:365-374 | With a non-negative interval, the clock readings of the passes behind any two attempts of a well-spaced history are at least `interval` apart. |
| `Publisher.ConsecutiveTicks` | discord.py:362-374 | After a failed send, the next pass tries to connect, and it sends only if that connect succeeds. Two sends on consecutive passes are at least `interval` apart. |

## Left out

- The psutil accessors `get_cpu_usage`, `get_memory_usage`, `get_disk_io`, `get_network_io` and `get_system_info` (discord.py:51-163) are foreign library calls. Only their outputs are modelled, as the optional facets of `Facets.Snapshot`.
- The pypresence client (`Presence`, `connect`, `update`, `close`) is an external IPC client. Its connect and update outcomes are the booleans `connectOk` and `sendOk`. The outcome of `close` does not affect the state, so it is not an input.
- Float formatting (`:.1f`, `:.0f`) and float division are not modelled. Numbers are kept as reals together with their count of decimals. Byte counts are converted to reals exactly, so the rounding of integers above 2^53 to floats is not modelled.
- `random.choice` (discord.py:264) is modelled as an arbitrary index of the pool.
- `Publisher.Session.Update`: states only that the sent candidate is some entry of the pool, not which one, because the random draw is abstracted.
- `time.time`, `time.sleep`, `argparse`, the OS-name and icon lookups, `check_dependencies` and all `print` logging are plumbing. The clock is an input of each pass. The icon, text and `start` fields of the update payload (discord.py:267-283) are not modelled, and neither is `initial_script_start_time`.
- The `if not variants: return` guard (discord.py:261-262) can never fire, because the pool is never empty (`PoolStartsWithCpuRam`). The model omits it.
- Python truthiness of the facet dictionaries is modelled as presence. The accessors return either None or a non-empty dictionary, so the two agree.
- `RPC = Presence(client_id)` (discord.py:231) is outside the `try` of `initialize_rpc`. If that constructor raised, the exception would end the main loop through discord.py:380-384, so the program would close and exit instead of retrying on the next pass. `connectOk = false` models only a failing `connect` call, not this exit.
- `KeyboardInterrupt` and unexpected exceptions in the main loop are not modelled. The loop runs over a finite sequence of passes, and then `close_rpc` runs, as the `finally` clause guarantees. No exception can arise inside `get_presence_variants` from the readings the accessors produce, so only a failed update call drops the handle.
