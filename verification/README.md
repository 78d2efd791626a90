# License API core in Dafny

A model of the core of a small license server (`main.py`): it issues license
keys and binds each key to one hardware identifier (hwid) when a device
activates it.

- `keygen.dfy` (module `KeyGen`) is `generate_license_key`. The random source
  is an oracle `Source = nat -> Draw`, and a `Draw` is a position in the
  36-character alphabet `A`–`Z`, `0`–`9`. The n-th `random.choice` call of one
  generation returns `Alphabet[source(n)]`. Everything else about the key is
  proved: the length, where the separators go, which draw lands at which
  position, and that the grouped key is the ungrouped one with separators
  inserted. `GenerateLicenseKey` follows the source's loops and is proved
  equal to the reference definition `KeyOf`.
- `licenses.dfy` (module `Licenses`) has the license record, the collection
  and the two write operations: `Issue` (the body of `admin_add_license`) and
  `Activate` (`activate_license`). The collection is a sequence of records in
  insertion order. `find_one` and `update_one` with a `license_key` filter
  both act on the first matching record (`FindOne`). `insert_one` appends and
  does not check that the key is new.
- `history.dfy` (module `History`) serves a sequence of issue and activate
  requests one after another. Over any such run it proves four things:
  - records stay well formed;
  - a winning activation keeps its binding for good;
  - every binding comes from an activation request that was answered
    `activated`.
  - a record whose key repeats an earlier record's key is never activated.
- `wrappers.dfy` (module `Wrappers`) is the `Option` type used for Python's
  `None`.

Facts about the code that shape the model:
- The code has no release or revoke operation, no status field and no retry
  on a duplicate key. None is modelled.
- Activating a key bound to another device answers HTTP 400 (main.py:204).
- Issued keys are not checked for uniqueness (main.py:180).
  `History.DuplicateNeverActivated` shows that a record whose key repeats an
  earlier record's key can never be activated.

## Model

| member | source | states |
|---|---|---|
| `KeyGen.AlphabetIsKeyChars` | main.py:69 | The character pool `ascii_uppercase + digits` holds exactly the upper-case letters and the digits, so it contains no `'-'`. |
| `KeyGen.GenerateLicenseKey` | main.py:63-77 | The loops of the source produce the reference key `KeyOf`. A grouped key has the grouped layout for `length // 4` groups. An ungrouped key is exactly `length` key characters with no `'-'`. |
| `KeyGen.JoinLayout` | main.py:77 | Joining groups of four with `'-'` gives length 5n-1 (0 for no groups). Position i holds `'-'` when i mod 5 = 4, and otherwise character i mod 5 of group i div 5. |
| `KeyGen.GroupedKeyAt` | main.py:72-77 | Position i of a grouped key is `'-'` when i mod 5 = 4. Otherwise it is the character picked by draw 4·(i div 5) + i mod 5. |
| `KeyGen.GroupedKeyLayout` | main.py:72-77 | A grouped key has `length // 4` groups, with negative counts giving none. Its `'-'` characters are exactly at positions 4, 9, 14, …, all other characters are alphanumeric, and each position holds the draw it consumes. |
| `KeyGen.UngroupedKeyLayout` | main.py:69-71 | An ungrouped key has exactly `length` characters, or none when `length` is negative. Character i is draw i, and none is a `'-'`. |
| `KeyGen.DefaultKeyLayout` | main.py:63-77 | With the defaults (grouped, length 16) the key has 19 characters, with `'-'` at positions 4, 9 and 14 and nowhere else. |
| `KeyGen.GroupedIsUngroupedWithSeparators` | main.py:70-77 | Removing the `'-'` from a grouped key gives the ungrouped key of length `4 * (length // 4)` over the same draws. So lengths that are not a multiple of 4 are truncated down. |
| `Licenses.FindOne` | main.py:196-198 | `find_one` by key returns the first record with that key. It returns nothing exactly when no record has the key. |
| `Licenses.OwnerField` | main.py:175 | `owner or None`: an owner is stored exactly when one was given and is not empty, and then it is stored unchanged. |
| `Licenses.Issue` | main.py:171-181 | Issuance appends exactly one record and leaves the existing ones alone. The new record carries a 4-group key, no hwid, `activated = False`, no activation time, the creation time and the normalised owner. Well-formedness is preserved. |
| `Licenses.Activate` | main.py:196-211 | Unknown key: 404, nothing changes. Activated with the same hwid: `already_activated`, nothing changes. Activated with another hwid: 400, nothing changes. Not activated: `activated`, and only the matched record is bound to the hwid. Activated records, keys, owners and creation times are never written, and a 200 reply leaves the key bound to the request's hwid. |
| `Licenses.ActivateIdempotent` | main.py:200-203 | Repeating a successful activation with the same hwid answers `already_activated` and leaves the collection unchanged. |
| `Licenses.ActivateNeverRebinds` | main.py:200-204 | After a successful activation, a request from a different hwid is refused with 400, and the key stays bound to the first hwid. |
| `Licenses.DuplicateKeyIsShadowed` | main.py:180-198 | If issuance draws a key that is already stored, the next activation of that key finds the older record and leaves the new one untouched and unactivated. |
| `Licenses.IssueThenActivateScenario` | main.py:171-211 | Issue a new key. "dev-A" gets `activated`, "dev-A" again gets `already_activated`, and "dev-B" gets 400. The key stays bound to "dev-A". |
| `History.RunPreservesValid` | main.py:173-209 | Over any sequence of issuances and activations, every record has a hwid and an activation time exactly when it is activated. |
| `History.RunKeepsKeys` | main.py:180-209 | No sequence of requests moves a record or changes its key. |
| `History.StepKeepsBinding` | main.py:196-211 | Once a key is bound to a hwid, no issuance or activation changes that binding. No later activation of that key is answered `activated`. |
| `History.WinnerBoundAtEnd` | main.py:196-211 | In any run, a request answered `activated` leaves its key bound to its hwid at the end of the run. |
| `History.WinnerKeepsKey` | main.py:196-211 | In a run, once an activation of a key has been answered `activated`, no later activation of the same key is answered `activated`. |
| `History.ShadowedNeverActivated` | main.py:196-210 | A record that comes after another record with the same key is never the one lookups find. No sequence of requests activates it. |
| `History.DuplicateNeverActivated` | main.py:171-210 | If issuance draws a key that is already stored, the new record stays unactivated whatever requests follow. |
| `History.EveryBindingHasWinner` | main.py:206-211 | Start from a collection with nothing activated. Every activated record is then bound to the hwid of an activation request for its key, and that request was answered `activated`. |

## Left out

- Login, logout, the session middleware and the hard-coded credentials are not modelled (main.py:89-135). Neither are the 401 replies that `admin_add_license` and `get_license_detail` give without a login (main.py:165-168, 218-221). They are authentication plumbing.
- The admin page and its listing of all licenses sorted by `created_at` are not modelled (main.py:137-153). Neither are the templates or static files. This is rendering.
- `get_license_detail` (main.py:216-226) is modelled only through its lookup, `FindOne`. `license_doc_to_dict` (main.py:79-87) is not modelled: it is dictionary and datetime serialisation.
- The MongoDB client, TLS setup and environment configuration are not modelled (main.py:30-58). They are I/O. The collection is a sequence of records.
- `activate_license` is modelled as one sequential step. In the source, `find_one` and `update_one` are separate awaits, and two concurrent requests can both be answered `activated`, with the later write winning. Concurrency is outside this model, so the exclusive-binding lemmas hold only for requests served one at a time.
- `created_at` and `activated_at` (`datetime.utcnow()`) are integers supplied by the caller.
- The quality and distribution of `random.choice` are not modelled. The random source is an arbitrary oracle into the alphabet.
- The replies' echo of `license_key` and the error `detail` strings are not modelled. An outcome and its HTTP status stand for the reply.
- `Licenses.Activate` reads `activated` as a boolean, while the source tests the truthiness of `license_doc.get("activated")`. The two agree on every record that issuance and activation write.
