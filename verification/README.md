# volley: the debounce engine, in Dafny

volley watches a source directory through fanotify. Once a top-level entry of that
directory has been quiet for a configured number of seconds, volley moves the entry to a
destination directory. This project models the logic at the centre of `main.go`:

- **the path classifier** (`getWatchComponent`). It maps a changed path to its *watch
  key*. A file directly in the source root is keyed by its own name. A path deeper down
  is keyed by the first directory below the root.
- **the event filter** in the main loop. A notification passes only if its path text
  begins with the source root's text and its mask carries `FAN_CLOSE_WRITE` or
  `FAN_MODIFY`.
- **the debounce registry.** This is the map from watch key to `*time.Timer`. A
  qualifying event creates the key's timer if it is missing, then resets it to fire
  `waitFor` later. A timer that fires renames `join(src, key)` to `join(dst, key)` and
  deletes the key from the map.
- **`waitFor`**, which is `time.Duration(waitTime) * time.Second` with int64
  wrap-around.

Paths are sequences of elements. `Paths.Render` gives their text, which is what the
character-prefix filter sees. `Paths` also models the parts of Go's `filepath.Split`,
`filepath.Rel`, `filepath.Join` and `strings.Split` that the classifier and the callback
use. The registry is a map from key to `Timer`, which is `Stopped(id)` or
`Armed(id, deadline)`. The clock is an abstract integer in nanoseconds. The whole watcher
is a state machine (`Watcher.Next`, `Watcher.Run`) over a trace of inputs. An input is
either a read of the event source or a moment offered to one key's timer. Each input is
one atomic step.

The configuration names the loop's path filter (`Watcher.Filter`). `CharPrefix` is the
character prefix test as main.go:112 applies it. `Contained` is the corrected test of the
finding below. Every general trace lemma is stated for both filters unless its
precondition says otherwise; the worked scenarios use `CharPrefix`.

Modules: `Wrappers` (Option), `Paths`, `Classifier`, `Debounce` (the registry) and
`Watcher` (the configuration, the filter, the event loop and traces).

The model follows the code in three places where it departs from the simpler design one
might expect:

- A notification whose path cannot be resolved stops the process (`log.Fatalf`,
  main.go:106-108). It is not merely dropped.
- The expiry callback renames first and deletes the map entry afterwards (main.go:31-37),
  rather than removing the entry before relocating. In the model an expiry is one atomic
  step, so the order matters only in the concurrent window listed under "Left out".
- The lookup (main.go:123-125) and the insert (main.go:133-135) take the lock
  separately, rather than holding it across check-and-create. In the model an event is
  one atomic step, so this window is not represented (see "Left out").

## Model

| member | source | states |
|---|---|---|
| Paths.Split | main.go:151 | the directory and the final name put back together give the path; the root splits into itself and the empty name |
| Paths.SplitOnSlash | main.go:157 | strings.Split on "/" always returns at least one field, and no field contains the separator |
| Paths.JoinSplit | main.go:157 | joining the fields of strings.Split with "/" gives back the original text |
| Paths.SplitJoin | main.go:157 | splitting the "/"-join of separator-free fields gives back exactly those fields |
| Paths.CommonLen | main.go:152 | the common leading run of two paths is common to both and maximal: the next elements differ |
| Paths.RelText | main.go:152-154 | the text filepath.Rel returns is "." exactly when the directory is the root itself |
| Paths.Rel | main.go:152 | the relative path is "." (empty) exactly when the two paths are equal, and for a descendant it is the descendant's part below the base |
| Paths.RelRoundTrip | main.go:152 | resolving Rel(base, target) against base gives target back, for every clean target |
| Paths.WithinHasPrefix | main.go:112 | a path that lies below the root, element by element, passes the character prefix test |
| Paths.Join | main.go:28-29 | filepath.Join of a clean root and any text is a clean path again |
| Paths.Resolve | main.go:28-29 | resolving separator-free elements one by one against a clean path gives a clean path |
| Paths.JoinName | main.go:28-29 | joining a proper name to a root descends exactly one level |
| Paths.JoinParent | main.go:28-29 | joining ".." to a non-root path gives its parent |
| Classifier.WatchComponent | main.go:150-159 | for a clean changed path, the key never contains "/", whatever the root |
| Classifier.DirectChildKey | main.go:151-155 | when the relative directory is ".", the key is the changed path's final name |
| Classifier.NestedKey | main.go:151-157 | when the path lies deeper, the key is the first directory below the root |
| Classifier.KeyIsTopLevelEntry | main.go:148-159 | for any clean path below the root, the key is the path's first element below the root |
| Classifier.SameKeyIffSameEntry | main.go:148-159 | two changed paths under the root get the same key if and only if they share their top-level entry |
| Classifier.KeyIsName | main.go:150-159 | the key of a clean path below the root is a proper name: non-empty, not "." or "..", no separator |
| Classifier.Examples | main.go:150-159 | R/foo.txt is keyed "foo.txt" and R/sub/deep/file.bin is keyed "sub" |
| Debounce.Event | main.go:124-142 | the create-stopped-then-reset sequence amounts to direct scheduling: the key has one timer, armed at now + waitFor; an existing timer object is kept and a missing key gets a new one; the map grows only when the key was absent; no other key changes; well-formedness is preserved |
| Debounce.Expire | main.go:26-38 | a timer fires exactly when it is armed and its deadline has come; firing removes exactly that key, whatever the rename's outcome, and keeps the registry well formed |
| Debounce.ExpireMovesEntry | main.go:28-31 | the move of a key that is a name goes from source/key to destination/key |
| Debounce.LaterEventWins | main.go:138-142 | two events for a key leave the registry as the later one alone would |
| Debounce.FiresOnce | main.go:36-38 | after a timer fires, the next expiry for its key, at any time, finds nothing to fire |
| Debounce.NoFireBeforeWait | main.go:138-142 | a timer armed at t does not fire at any time before t + waitFor |
| Debounce.FreshTimerAfterExpiry | main.go:127-136 | an event after expiry creates a timer distinct from every timer the registry held before |
| Watcher.Wrap64 | main.go:64 | the int64 result is congruent to the exact product modulo 2^64, and equals it when it fits |
| Watcher.WaitFor | main.go:64 | for 0 to 9223372036 seconds, waitFor is exactly that many seconds in nanoseconds, and it is not negative |
| Watcher.WaitForWrapsPastLimit | main.go:64 | one second more wraps to a negative duration |
| Watcher.Qualifies | main.go:121 | a mask qualifies exactly when it has FAN_CLOSE_WRITE or FAN_MODIFY set |
| Watcher.PrefixFilter | main.go:112 | every path that lies below the root, element by element, passes the character prefix test |
| Watcher.Passes | main.go:111-115 | either filter lets every path below the root through; the corrected one lets nothing else through |
| Watcher.Admits | main.go:111-115 | the corrected filter admits exactly the paths below the source root, element by element, and everything it admits also passes the prefix test |
| Watcher.SiblingDirectoryPassesPrefixFilter | main.go:112-157 | /data/in2/f.txt passes the prefix test for root /data/in, is keyed "..", and the key joins to the parents of both roots |
| Watcher.AdmittedKeyStaysInside | main.go:111-122 | behind the corrected filter, the key is a name and both ends of its move lie one level below their roots |
| Watcher.QualifyingKey | main.go:111-122 | a notification yields a key exactly when its path resolved, passes the configured filter and its mask qualifies |
| Watcher.QualifyingKeyIsEntry | main.go:121-122 | the key of a clean notification path below the root is its top-level entry |
| Watcher.Handle | main.go:96-144 | a failed read or an unresolved path, and only these, are fatal; an empty read or a filtered notification leaves the registry unchanged |
| Watcher.DropsPathWithoutPrefix | main.go:111-115 | a path whose text does not begin with the source root's text leaves the timers unchanged |
| Watcher.DropsOtherKinds | main.go:121 | a mask with neither write bit leaves the timers unchanged |
| Watcher.ArmsQualifyingKey | main.go:121-142 | a qualifying notification at t arms its key at exactly t + waitFor, adds no key but that one, and changes no other entry |
| Watcher.Next | main.go:96-145 | a stopped process stays stopped; each step keeps the moves made so far and adds at most one; reading the event source never moves anything |
| Watcher.Run | main.go:96-145 | over a whole trace, there are never more moves than timer deliveries |
| Watcher.NextKeepsDeadlines | main.go:121-142 | one step keeps the registry well formed and each deadline at waitFor after its key's last qualifying notification |
| Watcher.CorrectedFilterConfines | main.go:111-115 | behind the corrected filter, every path that gets through lies below the source root |
| Watcher.NextStaysInside | main.go:26-38 | on a clean path that the filter confines to the root, one step keeps every key a name and every move a move of one top-level entry |
| Watcher.RunDeadlines | main.go:19 | in every reachable running state, every timer is armed, no timer object is under two keys, and each deadline is waitFor after the key's last qualifying notification |
| Watcher.RunStaysInside | main.go:26-38 | over clean paths that the filter confines to the root, every move ever made takes one entry from directly below the source root to the same name directly below the destination root |
| Watcher.NoPrematureMove | main.go:130-142 | a key is moved only when at least waitFor has passed since its last qualifying notification |
| Watcher.DueKeyFires | main.go:26-38 | on every trace, under either filter, a due key fires when offered its moment: exactly one move, from join(source, key) to join(destination, key), is added and its entry is gone afterwards |
| Watcher.MovesWhenDue | main.go:26-38 | on a clean, confined trace, a due key is moved from source/key to destination/key, and its entry is gone afterwards |
| Watcher.StepKeepsAbsent | main.go:121-142 | a step that does not arm a key leaves that key without a timer |
| Watcher.RunKeepsAbsent | main.go:121-142 | a run of inputs with no qualifying notification for a key leaves that key without a timer |
| Watcher.MovesOncePerQuietPeriod | main.go:26-38 | after a key's timer has moved it, no later delivery to that key moves anything until a qualifying notification arms it again |
| Watcher.ResetOnlyExtends | main.go:138-142 | on a clock that does not run backwards, a reset keeps the timer object and never brings the deadline earlier |
| Watcher.ScenarioAfterWrites | main.go:121-142 | writes to /src/a.txt at 0s and 1s with a 2-second wait leave one timer, due at 3s |
| Watcher.DebounceScenario | main.go:26-38 | that timer does not fire at 2s; at 3s it moves /src/a.txt to /dst/a.txt; offered 4s afterwards, nothing more moves |
| Watcher.SiblingDirectoryMovesParent | main.go:26-38 | as written, a write to /data/in2/f.txt with root /data/in arms ".." and its timer moves /data to /mnt; with the corrected filter the same trace moves nothing |

## Findings

| source | as written | input that shows it | evidently intended | confidence | as-written member | corrected member |
|---|---|---|---|---|---|---|
| main.go:112 | `strings.HasPrefix(path, sourcePath)` compares characters, so a sibling directory whose name begins with the root's last name gets through | source /data/in, destination /mnt/out, a FAN_CLOSE_WRITE for /data/in2/f.txt on the same mount: the key is "..", and the timer's callback asks to rename /data to /mnt | only paths inside the source tree reach the classifier, so every key names a top-level entry of the source root | not executed; high | Watcher.SiblingDirectoryMovesParent | Watcher.AdmittedKeyStaysInside |

The loop takes its filter from the configuration. With `CharPrefix` it is the loop as
written, and `Watcher.SiblingDirectoryMovesParent` runs the input above through it. With
`Contained` it applies `Watcher.Admits`, which is the prefix test plus containment element
by element. `Watcher.CorrectedFilterConfines` shows that every trace through the corrected
loop meets the confinement precondition (`Watcher.ConfinedPaths`) of `Watcher.RunStaysInside`. `Watcher.DropsPathWithoutPrefix`
shows that either loop drops every path the original drops.

## Left out

- fanotify `Initialize`, `Mark`, `GetEvent`, `GetPath` and `Close` (main.go:72-108, 144) are the event source. One read is a `Watcher.Read` value: a failure, no data, or a notification with an optional resolved path and a mask. The per-event `Close` is not modelled.
- `MatchMask` belongs to the go-fanotify library, which is not part of this model. It is taken as the all-bits test. For the single bits used here, this is the same as testing any bit.
- `os.Rename` and `os.Stat`/`validateExistingDir` (main.go:31, 42-50) touch the file system. The rename becomes a `Debounce.Move` record, and its outcome does not affect the registry, as in the source.
- Flag parsing, printing and the `log.Fatalf` messages (main.go:53-70) are configuration and diagnostics. The configuration is a `Watcher.Config` value. A fatal exit during the loop is the `halted` flag.
- Concurrency is left out: the mutex, the `time.AfterFunc` goroutines, the unlocked window between the lookup (main.go:125) and `timer.Reset` (main.go:142), and the window between the rename and the delete in the callback (main.go:31-37). Each event and each expiry is one atomic step. The model therefore cannot show the source's lost-reset and orphaned-timer interleavings.
- The `filepath.Rel` error that main.go:152 ignores cannot occur for two absolute paths, so the model has no such case.
- `math.MaxInt64` in the create-then-`Stop` idiom (main.go:130-131): the new timer is modelled as `Stopped`, without that far deadline, and `Debounce.Event` states the net effect.
- The Go runtime fires a zero or negative duration at once and clamps deadlines that overflow. The model sets the deadline to now + waitFor on an unbounded clock. On a clock that does not run backwards, a negative waitFor likewise makes the timer due immediately.
- Paths are clean absolute element sequences, which is the form the kernel resolves paths to. A source or destination flag given as a relative path, with a trailing slash or with "." or ".." elements is not modelled. With a trailing slash the character prefix test would separate sibling directories correctly.
- Watcher.RunStaysInside: stated only for traces whose resolved paths are clean (`Watcher.CleanPaths`), which is the form the kernel reports, and confined to the source root by the filter (`Watcher.ConfinedPaths`). The loop as written does not ensure confinement (see Findings); the corrected filter does.
- Watcher.MovesWhenDue: the move's value `source + [key]` to `destination + [key]` is stated only under the same two trace conditions as `Watcher.RunStaysInside`, for the same reason. That the due key fires, adds exactly one move from join(source, key) to join(destination, key) and loses its entry holds on every trace (`Watcher.DueKeyFires`).
- Debounce.Expire: the move's two paths are stated only for keys that are names (`Debounce.ExpireMovesEntry`). For the key ".", "" or "..", `Paths.Join` computes them, and `Watcher.SiblingDirectoryPassesPrefixFilter` works out the ".." case.
