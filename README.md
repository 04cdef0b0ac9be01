# glovoplz in Dafny

`glovoplz.py` is a script for one Glovo courier. Every 30 seconds it fetches
the courier's scheduling calendar and picks out the free slots. It drops the
slots it has already announced this hour and the slots outside the wanted
hours. It then posts the remaining slots to a Discord webhook and remembers
their ids. Every API call needs an OAuth access token, which the script
caches in a token file.

This project models the three pieces of sequential logic in that script and
proves properties about them:

- **Slot extraction** (`calendar.dfy`, module `Calendar`). A snapshot is
  modelled as days, each with a `zonesSchedule` of zones, each with slots.
  `FindFreeSlots` is the day loop of `find_free_slots`; the zone loop and the
  slot loop inside it are the methods `AppendZones` and `AppendZone`, which
  append to the same list. It is proved equal to the specification `FreeSlots`. Lemmas then show three things: which
  slots come out (the slot and its day are both `"AVAILABLE"`), that the zones
  of an unavailable day are never looked at, and that the result keeps the
  order of the day → zone → slot walk.
- **One poll** (`notify.dfy`, module `Notify`). The class `PollState` holds the
  script's two globals, `notif_hour` and `slots_notified`, together with
  `hours_wanted`. `Poll` does what the body of `run` does: extract the slots,
  run the hour check, filter, and record the ids that `notify_discord`
  appends. The filter loop is modelled exactly as written.
  `slots.remove(slot)` (modelled by `Lists.RemoveFirst`) is called once for
  every window the slot fails. A slot therefore survives only if it lies
  inside **every** window. A slot that fails two windows makes the second
  `remove` raise `ValueError`, which the model returns as the error
  `NotInList`. The configuration comment at glovoplz.py:32-34 presents several
  windows as alternative ranges, but the model follows the code.
  `SeparateWindowsKeepNothing` proves what the code does with two
  non-overlapping windows. It keeps no slot whose end hour is at or after its
  start hour, and it raises as soon as a non-notified slot lies outside both
  windows. The alternative reading is modelled beside it as `KeptAny` (see
  "## Findings").
- **Token lifecycle** (`oauth.dfy`, module `OAuth`). The class `TokenCache`
  holds the token file. `GetToken` is `g_oauth_token`, including the one
  recursive call after the file is deleted. It returns the token together with
  the requests it sent, so properties like "no request on a cache hit" and "at
  most one retry" can be stated. It is proved equal to the specification
  `Lifecycle`. The token file has three states: no file, a saved
  credential, and a file that exists but holds no JSON. This third state is
  needed because line 111 opens the file for writing *before* line 114 reads
  `expiresIn`. A password grant without `expiresIn` therefore raises
  `KeyError` and leaves an empty file behind. The `KeyError` is not caught,
  so the script stops. After a restart, every call fails at `json.load`
  (`FailureIsPermanent`). `IntendedLifecycle` is the same lifecycle with
  `expiresIn` checked before the file is written (see "## Findings").
  An expired token whose refresh answer lacks `expiresIn` costs two
  requests: a refresh, then a password grant (`AtMostOneRetry`). This is the
  refresh-then-reissue order the token algorithm prescribes, not a defect.

`wrappers.dfy` holds `Option` and `Result`. `lists.dfy` holds the subsequence
relation, `Distinct`, and the model of Python's `list.remove`.

Inputs the script reads from the environment appear as parameters:

- the current time `now`, in POSIX seconds;
- the current hour `currentHour`;
- `hourOf`, which stands for `datetime.fromtimestamp(ms / 1000).hour` and maps
  epoch milliseconds to an hour of the day;
- the grant responses `issued` and `refreshWith`.

## Model

| member | source | states |
|---|---|---|
| `Lists.RemoveFirst` | glovoplz.py:208 | `list.remove`: returns no list (the `ValueError`) exactly when the value is missing; otherwise the list is one element shorter |
| `Lists.RemoveFirstAt` | glovoplz.py:199 | `list.remove` deletes the first occurrence and keeps everything before and after it |
| `Calendar.AppendZone` | glovoplz.py:158-160 | the slot loop appends exactly the AVAILABLE slots of one zone, in order, after what was already collected |
| `Calendar.AppendZones` | glovoplz.py:157-160 | the zone loop appends the open slots of the day's zones, zone after zone, after what was already collected |
| `Calendar.FindFreeSlots` | glovoplz.py:153-161 | the nested loops return exactly `FreeSlots(days)`: the open slots of the open days, in day, zone, slot order |
| `Calendar.FreeSlotsMembership` | glovoplz.py:155-160 | a slot is returned iff its status is AVAILABLE and it sits in some zone of a day whose status is AVAILABLE |
| `Calendar.UnavailableDayIgnored` | glovoplz.py:156 | replacing the zones of a day that is not AVAILABLE, whatever their slots say, does not change the result |
| `Calendar.FreeSlotsSubsequence` | glovoplz.py:154-161 | the result is an order-preserving subsequence of the full day → zone → slot flattening and is no longer than it |
| `Notify.RemoveOutsideWindows` | glovoplz.py:202-208 | the window loop for one slot calls `remove` once per failed window, and fails once a `remove` raises |
| `Notify.FilterSlots` | glovoplz.py:197-208 | the filter loop over a copy of the slots returns exactly `Filtered(...)` whenever no slot value repeats |
| `Notify.FailCountZero` | glovoplz.py:205 | a slot fails no window iff start hour ≥ lo and end hour ≤ hi for every `(lo, hi)` |
| `Notify.FilteredOkIff` | glovoplz.py:202-208 | the loop raises iff some slot that was not notified fails two windows or more |
| `Notify.FilteredErr` | glovoplz.py:197-208 | the error names the first such slot, in list order |
| `Notify.FilteredIsKept` | glovoplz.py:197-208 | when the loop does not raise, what is left is the reference filter `Kept` |
| `Notify.KeptMembership` | glovoplz.py:197-208 | a slot is kept iff it was in the input, its id was not notified, and it lies inside every window; so no kept id is in the notified list |
| `Notify.KeptSubsequence` | glovoplz.py:197-208 | filtering only removes: the kept slots are a subsequence of the input |
| `Notify.SingleWindowNeverRaises` | glovoplz.py:202-208 | with at most one configured window the loop never raises |
| `Notify.DefaultWindowExample` | glovoplz.py:32-34 | with the shipped `[(11, 20)]`, a 09:00–10:00 slot is dropped and an 11:00–13:00 slot is kept |
| `Notify.SeparateWindowsKeepNothing` | glovoplz.py:202-208 | with two non-overlapping windows, no slot whose end hour is at or after its start hour is kept, and a non-notified slot outside both windows makes the loop raise |
| `Notify.KeptAnyMembership` | glovoplz.py:32-34 | under the reading of the configuration comment, a slot is kept iff it was in the input, its id was not notified, and it lies in at least one window |
| `Notify.OneWindowSameFilter` | glovoplz.py:32-34 | with exactly one window, as shipped, the code's filter and the alternative reading keep the same slots in the same order |
| `Notify.AndWindowsDropsSlot` | glovoplz.py:202-208 | with the comment's windows `[(10, 12), (15, 17)]`, the loop drops a 10:00–12:00 slot without raising, while the alternative reading keeps it |
| `Notify.NotifiedNotRepeated` | glovoplz.py:197-200 | a slot whose id was recorded is dropped by every later poll with the same notified list, whatever the snapshot |
| `Notify.PollState.constructor` | glovoplz.py:38-39 | at start-up the notified list is empty and the hour is the given start hour |
| `Notify.PollState.ResetHour` | glovoplz.py:193-195 | if the hour changed: the notified list becomes empty and the hour is updated; otherwise both are unchanged |
| `Notify.PollState.RecordNotified` | glovoplz.py:168-182 | every given slot's id is appended in order and no earlier entry is removed |
| `Notify.PollState.Poll` | glovoplz.py:189-211 | the hour check runs before the filter. The filter works on the reset list and yields `Filtered` of the free slots. On success the kept ids are appended; on the error nothing is appended |
| `Notify.RescanScenario` | glovoplz.py:189-211 | an 11:00–13:00 slot is notified on the first poll, not on a re-scan in the same hour, and again after the hour changes |
| `OAuth.TokenCache.GetToken` | glovoplz.py:107-137 | the token, the new token file and the requests sent are exactly `Lifecycle` of the old file |
| `OAuth.CacheHit` | glovoplz.py:119-123 | a saved token whose expiration is strictly after `now` is returned with no request and the file unchanged |
| `OAuth.IssueWithoutFile` | glovoplz.py:110-117 | with no file, one password grant is sent and its tokens are saved with expiration `now + expiresIn`. Without `expiresIn` the call fails and leaves an unreadable file |
| `OAuth.ExpiredRefreshes` | glovoplz.py:125-137 | an expired token is refreshed with its own refresh token. A refresh with `expiresIn` overwrites the record with `now + expiresIn`. One without it is followed by exactly one password grant, whose outcome is the call's outcome |
| `OAuth.AtMostOneRetry` | glovoplz.py:125-128 | each call sends one of: nothing, one password grant, one refresh, or one refresh followed by one password grant |
| `OAuth.ReturnedTokenIsCurrent` | glovoplz.py:107-137 | when the provider grants positive lifetimes, a returned token is the one in the file, and its expiration is after `now` |
| `OAuth.FailureIsPermanent` | glovoplz.py:110-120 | a failed call leaves an unreadable file, and from then on every call fails without sending a request |
| `OAuth.IntendedDiffersOnlyOnFailure` | glovoplz.py:110-117 | the lifecycle with `expiresIn` checked before writing gives the same result and the same requests as the code; only a failed call from a readable file or none leaves no file instead of an empty one |
| `OAuth.IntendedRecovers` | glovoplz.py:110-117 | under that lifecycle a failed call leaves no file, and the next call issues and saves a new token once the grant carries `expiresIn` |
| `OAuth.MissingExpiresInExample` | glovoplz.py:110-120 | a grant without `expiresIn` followed by a good one: the code keeps failing at `json.load`, the intended lifecycle returns the new token |

## Left out

- The HTTP requests in `g_oauth_refresh`, `g_oauth_newtoken` and `g_calendar` are left out, as is the `last_cal.json` dump. The grant answers and the calendar snapshot are parameters. A request that fails is not modelled.
- The Discord embed building and `execute()` in `notify_discord` are left out. Only the id append is modelled. The `print` of the kept slots and the stdout heartbeat are left out too.
- The `schedule` decorator and the `while True` sleep loop are left out. Each call of `Poll` is one run.
- Clock and time-zone conversion are left out: `datetime.now()`, `datetime_from_utc_to_local` and `fromtimestamp(...).hour`. The model takes `now`, the current hour and `hourOf` as inputs. Timestamps are integers, not floats.
- Notify.PollState.Poll: `run` reads `datetime.now().hour` twice (lines 193 and 195); the model reads one hour for both checks.
- `glovo_headers` is left out. So are the configuration constants and the random installation and session GUIDs.
- The JSON format of the token file is left out. The file is either absent, undecodable, or a saved credential. A grant answer that lacks `accessToken` or `refreshToken` is not modelled: both are always present.
- Notify.FilterSlots: its result is pinned down only when no slot value occurs twice in the extracted list. When a value repeats, `list.remove` may delete an earlier copy instead. The method still runs the loop as written, but its contract says nothing about that case. Whether the loop raises, and what survives, still agree with `Filtered` because every copy of a value is removed equally often; only which slot the error names can differ. That is not proved.
- Notify.PollState.Poll: the same restriction applies to what it says about the filter result. What it says about the notified list holds in every case.
- Auto-booking is left out, because the script has no booking code.
- Exceptions are not caught anywhere in the script: the filter's `ValueError` and the token `KeyError` propagate out of `run` and `run_pending()` (glovoplz.py:218-219) and stop the process. The model returns them as `Err`, and the same `PollState` or `TokenCache` can then be called again. A call after an `Err` therefore stands for the same process only in the model; in the script it is a restart, and only the token file carries over.

## Findings

| source | as written | input that shows it | evidently intended | confidence | as-written member | corrected member |
|---|---|---|---|---|---|---|
| glovoplz.py:202-208 | one `slots.remove` per failed window: a slot must lie in every window, and failing two windows raises `ValueError` | windows `[(10, 12), (15, 17)]` and a 10:00–12:00 slot: dropped; a non-notified 13:00–14:00 slot: raises | the comment at glovoplz.py:34 reads the windows as alternatives: keep a slot that lies in one of them, never raise | not executed | `Notify.AndWindowsDropsSlot` | `Notify.KeptAnyMembership` |
| glovoplz.py:110-120 | the token file is opened for writing before `expiresIn` is read, so a grant without it leaves an empty file | a password grant answer without `expiresIn`, then any answer | a failed grant leaves no file, so the next call issues a new token | not executed | `OAuth.MissingExpiresInExample` | `OAuth.IntendedRecovers` |

`PollState.Poll` and `TokenCache.GetToken` keep the behaviour as written,
because they model the script as shipped. `KeptAny` and `IntendedLifecycle`
stand beside them. `OneWindowSameFilter` shows that, with the shipped single
window, the filter as written already keeps what the alternative reading keeps.
With no window at all the two readings part: the code keeps every
non-notified slot and `KeptAny` keeps none.
