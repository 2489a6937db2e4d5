# Wake-Up alarm service: time handling and alarm records

Wake-Up is a voice-controlled alarm clock served by Flask (`voicerec.py`).
A user sets an alarm by typing a time on the web page or by saying something
like "set alarm for 7 am". The service turns the time into a stored 12-hour
string such as `"7:00 AM"`, refuses a second active alarm for the same user and
time when requests come one at a time, cancels alarms by id, and lists a
user's alarms that are not cancelled.

This project models that logic in Dafny and proves what it promises:

- `wrappers.dfy`, module `Wrappers`: the `Option` type (Python's `None` or a
  value).
- `time_text.dfy`, module `TimeText`:
  - `extract_time`, the conversion that follows the regular-expression
    search of a spoken command;
  - `standardize_time_format`, with Python's `strptime` (`"%H:%M"` and
    `"%I:%M %p"`), `strftime("%I:%M %p")` and `lstrip('0')` written out;
  - `get_seconds_until_alarm` on whole seconds of the day, both as intended
    and as written.
- `alarm_store.dfy`, module `AlarmStore`:
  - the `Alarm` table and the `active_timers` dictionary as class `AlarmDb`,
    with `create_alarm` and `cancel_alarm` as methods that update it in place;
  - the filter and ordering of `show_alarms` as pure functions over the table.
- `voice_commands.dfy`, module `VoiceCommands`: the order in which the voice
  loop tries its command phrases.

Inputs that the source reads from the outside world are parameters here:
- the current time is a `now` parameter, in seconds since midnight;
- the outcome of each regular-expression search is a `TimeMatch` value;
- the user id is a parameter;
- the database is the `AlarmDb` object.

In a few places the code behaves differently from what one might expect of
an alarm service. This model follows the code:
- times are stored as 12-hour `"H:MM AM"` strings, not as 24-hour `HH:MM:SS`;
- `create_alarm` rejects only an empty time, so a time it cannot parse is
  stored as given;
- `cancel_alarm` marks any existing alarm cancelled, whatever its status, so
  cancelling twice succeeds both times. No conflict is reported;
- the code has no fire transition and no `triggered` status.

## Model

| member | source | states |
|---|---|---|
| `TimeText.Pad2` | voicerec.py:76 | `f"{hour:02d}"` gives two digits whose value is the hour |
| `TimeText.HourField24` | voicerec.py:123 | `%H` accepts exactly one digit, or two digits from `00` to `23`, and rejects everything else; the value is the digits' value |
| `TimeText.HourField12` | voicerec.py:121 | `%I` accepts exactly `1`-`9` or `01`-`12`, and rejects everything else (`0`, `00`, `13`, ...); the value is the digits' value |
| `TimeText.MinuteField` | voicerec.py:121-123 | `%M` accepts exactly one digit, or two digits from `00` to `59`, and rejects everything else; the value is the digits' value |
| `TimeText.MeridiemField` | voicerec.py:121 | `%p` is `am` or `pm` in any letter case, and nothing else |
| `TimeText.StrptimeHour` | voicerec.py:121 | a 12-hour reading becomes the 24-hour hour with the same clock face whose half of the day matches the marker |
| `TimeText.Parse24` | voicerec.py:122-123 | `strptime(s, "%H:%M")` yields only valid times of day |
| `TimeText.Parse12` | voicerec.py:120-121 | `strptime(s, "%I:%M %p")` yields only valid times of day |
| `TimeText.ParseTime` | voicerec.py:119-123 | a string with a space is read in 12-hour form, any other in 24-hour form; the result is a valid time of day |
| `TimeText.LStripZeros` | voicerec.py:125 | `lstrip('0')` drops exactly the leading zeros: the result is a suffix, everything dropped is `0`, and the result does not start with `0` |
| `TimeText.StripPaddedHour` | voicerec.py:125 | stripping the padded clock-face hour leaves it as `str` writes it |
| `TimeText.StrftimeStripped` | voicerec.py:125 | `strftime("%I:%M %p").lstrip('0')` gives the stored form `H:MM AM/PM` |
| `TimeText.StandardizeTimeFormat` | voicerec.py:117-127 | a time that parses comes back as its stored 12-hour form; any other input comes back unchanged |
| `TimeText.ParseTwoDigitFields` | voicerec.py:122-123 | any `"HH:MM"` with hour below 24 and minutes below 60 parses as that time |
| `TimeText.OutOfRange24Kept` | voicerec.py:122-127 | a two-digit `"HH:MM"` whose hour is above 23 or whose minutes are above 59 (such as `"24:00"` from a spoken "24 pm", or `"14:75"`) does not parse and is stored exactly as given |
| `TimeText.Format24RoundTrip` | voicerec.py:122-123 | the 24-hour form of a time parses back to that time |
| `TimeText.ParseTwelveHourFields` | voicerec.py:120-121 | any `"H:MM xm"` or `"HH:MM xm"` with fields in range parses as the time `strptime` builds from its hour, minutes and marker |
| `TimeText.ClockFaceHourBack` | voicerec.py:121-125 | reading the clock-face hour that `%I` prints back with the hour's own `%p` gives the 24-hour hour |
| `TimeText.Canonical12RoundTrip` | voicerec.py:120-125 | the stored 12-hour form parses back to the time it renders |
| `TimeText.StandardizeIdempotent` | voicerec.py:117-127 | standardizing twice gives the same string as standardizing once |
| `TimeText.SameStoredFormFor24And12` | voicerec.py:119-125 | a valid `"HH:MM"` and the 12-hour form of the same time are stored as the same string |
| `TimeText.TwelveHourSpellingStoredAs24` | voicerec.py:119-125 | every 12-hour spelling of a time (hour with or without a leading zero, `am`/`pm` in any letter case) is stored as the same string as its 24-hour `"HH:MM"` form |
| `TimeText.StoredForm24` | voicerec.py:122-125 | an in-range `"HH:MM"` is stored as the 12-hour form of the time its fields denote |
| `TimeText.StoredForm12` | voicerec.py:120-125 | an in-range 12-hour spelling is stored as the 12-hour form of the time `strptime` reads from it |
| `TimeText.StandardizeEmptyOnlyForEmpty` | voicerec.py:119-127 | the result is empty exactly when the input is empty |
| `TimeText.StandardizeAfternoonExample` | voicerec.py:117-127 | `"14:30"` becomes `"2:30 PM"` |
| `TimeText.StandardizeMidnightExample` | voicerec.py:117-127 | `"00:15"` becomes `"12:15 AM"` |
| `TimeText.StandardizeLowerCaseExample` | voicerec.py:120-125 | `"2:30 pm"` becomes `"2:30 PM"` |
| `TimeText.StandardizeUnparseableExample` | voicerec.py:126-127 | `"14:75"` comes back unchanged |
| `TimeText.StandardizeNine24Example` | voicerec.py:122-125 | `"09:00"` becomes `"9:00 AM"` |
| `TimeText.StandardizeNine12Example` | voicerec.py:120-125 | `"9:00 am"` becomes `"9:00 AM"`, the same stored form as `"09:00"` |
| `TimeText.SecondOfDay` | voicerec.py:107 | an alarm's time of day falls within the day |
| `TimeText.SecondsUntilAlarm` | voicerec.py:94-113 | `None` exactly when the time does not parse; otherwise a delay below one day after which the clock shows the alarm's time |
| `TimeText.SecondsUntilIsNextOccurrence` | voicerec.py:109-113 | the delay is the only such delay below one day: `alarm - now` when the alarm is not earlier than now, `alarm + 86400 - now` when it is |
| `TimeText.SecondsUntilAlarmAsWritten` | voicerec.py:98-113 | as written, the code raises `AttributeError` exactly when the alarm time parses and is earlier than now; otherwise it agrees with the intended delay |
| `TimeText.PastAlarmRaisesAsWritten` | voicerec.py:110-111 | `"07:00"` at 08:00 raises as written, and is 23 hours away as intended |
| `TimeText.MinutesText` | voicerec.py:70 | the captured minutes, or `"00"`, are always two digits |
| `TimeText.MeridiemHour` | voicerec.py:83-86 | for hours 1-12 the conversion agrees with `strptime`; hours above 12 are kept; hour 0 becomes 12 with pm |
| `TimeText.ConvertMatch` | voicerec.py:69-88 | a 12-hour match always yields a time; a 24-hour match yields one exactly when its hour is at most 23; the result is `HH:MM` with the converted hour and the minutes as captured |
| `TimeText.ExtractTime` | voicerec.py:58-90 | the result is the conversion of the first pattern whose match yields a time, or `None` when none does |
| `TimeText.SpokenTimeStoredAsTyped` | voicerec.py:69-88 | a spoken 12-hour time in range is stored as the same time typed in 12-hour form |
| `TimeText.OutOfRangeSpokenHourKept` | voicerec.py:83-88 | `"75 pm"` becomes `"75:00"`, which standardizing hands back unchanged |
| `TimeText.ExtractExamples` | voicerec.py:69-90 | `7 am` gives `"07:00"`, `2:30 pm` gives `"14:30"`, `12 am` gives `"00:00"`, and `24` without a marker gives nothing |
| `AlarmStore.AddActiveKeepsUnique` | voicerec.py:240-260 | adding an active row under a fresh id, when no active row has its user and time, keeps at most one active alarm per user and time |
| `AlarmStore.CancelKeepsUnique` | voicerec.py:320-323 | marking a row cancelled keeps at most one active alarm per user and time |
| `AlarmStore.FindActive` | voicerec.py:240-244 | finds the first active alarm of the user at that time, if there is one; `None` means there is no such alarm |
| `AlarmStore.TextLeTotal` | voicerec.py:350-352 | any two stored times are ordered one way or the other |
| `AlarmStore.TextLeTransitive` | voicerec.py:350-352 | the text order is transitive |
| `AlarmStore.TextLeAntisymmetric` | voicerec.py:350-352 | two times that are each at most the other are equal |
| `AlarmStore.InsertByTime` | voicerec.py:350-352 | inserting adds exactly the one entry |
| `AlarmStore.InsertKeepsSorted` | voicerec.py:350-352 | inserting into a list sorted by time keeps it sorted |
| `AlarmStore.InsertKeepsDistinct` | voicerec.py:350-352 | inserting an entry with a new id keeps the ids distinct |
| `AlarmStore.SortByTime` | voicerec.py:350-352 | the sorted list is a permutation of the input |
| `AlarmStore.SortByTimeSorted` | voicerec.py:350-352 | the sorted list is ascending by stored time string |
| `AlarmStore.SortByTimeDistinct` | voicerec.py:350-352 | sorting keeps distinct ids distinct |
| `AlarmStore.CollectListed` | voicerec.py:346-349 | exactly the user's alarms that are not cancelled, each once, as `{id, time, status}` |
| `AlarmStore.ListingSpec` | voicerec.py:346-357 | the sorted listing holds exactly the user's alarms that are not cancelled, each once, ascending by time string |
| `AlarmStore.AlarmDb.constructor` | voicerec.py:18-21 | an empty table and an empty timer dictionary |
| `AlarmStore.AlarmDb.CreateAlarm` | voicerec.py:233-270 | an empty time is rejected. If the user has an active alarm at the standardized time, its id is returned and nothing changes. Otherwise exactly one new active record is added under the next id. Timers are untouched. Over calls made one after another, there is never more than one active alarm per user and time |
| `AlarmStore.AlarmDb.CancelAlarm` | voicerec.py:310-328 | the id leaves `active_timers` and no other timer changes. An existing alarm becomes `cancelled` whatever its status was, and no other record changes. An unknown id gives "Alarm not found" with the table unchanged |
| `AlarmStore.AlarmDb.ShowAlarms` | voicerec.py:343-358 | exactly the user's alarms that are not cancelled, each once, ascending by stored time string |
| `AlarmStore.ListingIsTextualNotChronological` | voicerec.py:350-352 | `"10:00 AM"` is listed before `"9:00 AM"`: the order is by text, not by clock |
| `VoiceCommands.ContainsIffOccurs` | voicerec.py:385 | Python's substring test finds a phrase exactly when it occurs at some position |
| `VoiceCommands.MissingLetterNotContained` | voicerec.py:385-426 | a phrase with a letter the command lacks is not in the command |
| `VoiceCommands.Classify` | voicerec.py:384-434 | set, cancel, list and help are tried in that order; a kind is chosen exactly when its phrases occur and no earlier kind's do |
| `VoiceCommands.SetTakesPriorityExample` | voicerec.py:385-398 | a command naming both cancelling and setting is a set command |
| `VoiceCommands.NoSetOrCancelPhrase` | voicerec.py:385-398 | a command without the letters `e`, `c` and `d` is neither a set nor a cancel command |
| `VoiceCommands.ShowAlarmsListed` | voicerec.py:385-415 | a command that says "show alarms" and has none of the letters `e`, `c` and `d` is a list command |

## Findings

| source | as written | input that shows it | evidently intended | confidence | as-written member | corrected member |
|---|---|---|---|---|---|---|
| voicerec.py:111 | `alarm_dt += datetime.timedelta(days=1)`: `datetime` is the class imported on line 4, which has no `timedelta` attribute, so this raises `AttributeError`. The `except ValueError` does not cover this line | alarm `"07:00"` requested at 08:00 | move the alarm to the next day and return 23 hours | high (not executed) | `TimeText.SecondsUntilAlarmAsWritten`, `TimeText.PastAlarmRaisesAsWritten` | `TimeText.SecondsUntilAlarm`, `TimeText.SecondsUntilIsNextOccurrence` |

## Left out

- `TimeText.ParseTime`: only ASCII digits are modelled. Python's `\d` also matches other Unicode decimal digits; the model treats such input as unparseable.
- `TimeText.ConvertMatch`, `TimeText.ExtractTime`: a match's minutes are two ASCII digits (`WellFormedMatch`). The `\d{2}` of the three search patterns also captures other Unicode decimal digits, which line 88 copies into the result; such matches are not modelled.
- `TimeText.ParseTime`: `%p` is modelled for the C locale (`AM`/`PM`). Other locales are out of scope.
- `TimeText.ExtractTime`: the regular-expression search is not modelled. Each search outcome is an input: the hour, the optional two minute digits, and the am/pm marker already reduced by lines 79-80.
- `TimeText.SecondsUntilAlarm`: `datetime.now()` becomes a whole second of the day. Microseconds, the float from `total_seconds()` and daylight-saving changes are left out.
- `AlarmStore.FindActive`: `.first()` without an `ORDER BY` is modelled as the smallest id. Under the invariant that at most one alarm per user and time is active, there is only one candidate anyway.
- `AlarmStore.SortByTime`: SQLite does not fix the order of rows with equal times; the model keeps them in id order.
- `AlarmStore.AlarmDb.CancelAlarm`: `timer.cancel()`, which stops the timer thread, is not modelled. Only the removal from `active_timers` is. The source never fills `active_timers`, because timer arming is elided at lines 262-263, so no timer is armed or fired here.
- `AlarmStore.AlarmDb.CreateAlarm`: calls are modelled one at a time. In the source the duplicate check (lines 240-244) and the insert (lines 259-260) are not under a lock, and the `Alarm` table (lines 151-156) has no unique constraint. `create_alarm` runs both on the voice thread (line 389) and on Flask request threads (line 286), so two concurrent calls can both insert an active alarm for the same user and time. The uniqueness that `Valid()` keeps holds only for calls made one after another.
- Exception handling with `db.session.rollback()` (lines 272-274, 329-332) and commits are left out. The table is an in-memory map.
- `created_at` and the `User` table are left out. `get_or_404` in `show_alarms` answers 404 for an unknown user, and that is web plumbing.
- Flask routes, sessions, login, registration and password hashing (lines 159-229, 277-288, 306-309) are web plumbing and foreign library calls.
- `get_voice_command` (microphone and speech service), `play_alarm` (pygame audio), and the `listen_for_commands` loop are left out. So are its sleeps, error counting, locks and `current_user_id`; only the order of its command tests is modelled.
- The voice "cancel alarm" id pattern (lines 399-405) is left out. So is the voice "list alarms" query (line 416), which unlike `show_alarms` also lists cancelled alarms.
- test.py, a one-off `ALTER TABLE` migration, has no logic to model.
