# Family Guy new-episode emailer: selection and change decision

The program (`fam_guy_ep_email.py`) runs on a schedule. It fetches the show's
episode list from TVMaze and keeps the episodes whose airdate is on or before
today. It picks the latest of those and cleans its summary. It compares that
episode with the record stored by the previous run. When the episode is new,
it mails a notification and overwrites the record.

This Dafny project models that decision logic:

- `StrOrder` (`str_order.dfy`): Python's `<` and `<=` on `str`. This is a
  lexicographic order by code point. Dafny's `<` on sequences only tests for a
  proper prefix, so the order is defined here. Its laws are proved: irreflexive,
  transitive, total, and `a <= b` exactly when not `b < a`.
- `IsoDate` (`iso_date.dfy`): `date.isoformat()` as `%04d-%02d-%02d`. For
  strings of this shape, string order is the same as (year, month, day) order.
  That is why the aired filter's string comparison compares dates.
- `Summary` (`summary.dfy`): `re.sub(r'</?p>', '', s).strip()`. This is one
  left-to-right pass that deletes non-overlapping `<p>`/`</p>` matches. It is
  followed by stripping the whitespace that Python's `str.isspace()` recognises.
- `Episodes` (`episodes.dfy`): the episode and stored-record shapes, the aired
  filter, `max(aired, key=airdate)`, `is_new_episode` and the record that
  `save_latest_episode` writes.
- `Notifier` (`notifier.dfy`): one run of `main`. `Decide` is a function of the
  listing, today's date, the stored record and the mailer's success.
  `StateStore` is a class whose one field is the stored record (`Option<Stored>`).
  Its method `Run` performs the run and is proved against `Decide`.
- `Wrappers` (`wrappers.dfy`): `Option`.

Today's date is a parameter (an ISO string). The mailer's success is a boolean
parameter.

Behaviours of the code that the model keeps as they are:

- Ties on the greatest airdate go to the first aired episode in source order.
  Season and number play no part (`SameDayFirstWins`, `SameDayExample`).
- The record is written even when the mail fails. `send_email` catches every
  exception raised by the SMTP exchange (lines 40-47). The failed notification
  is therefore never retried (`FailedMailIsLost`).
- When nothing has aired, `max` of an empty list raises. The run stops with
  nothing sent and nothing saved (`NoAiredEpisode`).
- An empty airdate string counts as aired, since `"" <= today` holds in Python.
- Only the latest aired episode is tracked.

## Model

| member | source | states |
|---|---|---|
| StrOrder.StrLtIrreflexive | fam_guy_ep_email.py:77 | no string is smaller than itself in Python's order |
| StrOrder.StrLtTransitive | fam_guy_ep_email.py:77 | Python's string `<` is transitive |
| StrOrder.StrLtTotal | fam_guy_ep_email.py:79 | any two different strings are ordered one way or the other, so `max` over airdates is well defined |
| StrOrder.StrLtAsymmetric | fam_guy_ep_email.py:79 | `a < b` excludes `b < a` |
| StrOrder.StrLt | fam_guy_ep_email.py:77-79 | Python's `<` on `str`, lexicographic by code point with a proper prefix smaller; it never holds between equal strings |
| StrOrder.StrLe | fam_guy_ep_email.py:77 | Python's `<=` on `str`: equal or smaller, which holds exactly when `b < a` does not |
| StrOrder.StrLeTransitive | fam_guy_ep_email.py:77 | string `<=` is transitive |
| StrOrder.StrLeAntisymmetric | fam_guy_ep_email.py:79 | two strings each `<=` the other are equal |
| StrOrder.ProperPrefixIsSmaller | fam_guy_ep_email.py:77 | a proper prefix compares smaller, e.g. `""` is below every non-empty date |
| StrOrder.StrLtConcat | fam_guy_ep_email.py:77 | comparing strings that start with equal-length prefixes compares the prefixes first, then the rest |
| IsoDate.DigitsRoundTrip | fam_guy_ep_email.py:75 | reading the zero-padded digits written by `isoformat` back gives the number |
| IsoDate.IsoFormat | fam_guy_ep_email.py:75 | `date.isoformat()` gives ten characters with dashes at positions 4 and 7, from which the year, month and day read back whenever they fit |
| IsoDate.DigitsOrder | fam_guy_ep_email.py:75-77 | equal-width zero-padded numbers compare as strings exactly as they compare as numbers, and are equal exactly when the numbers are |
| IsoDate.IsoOrderIsDateOrder | fam_guy_ep_email.py:75-77 | for ISO `YYYY-MM-DD` strings, string `<` and `<=` are (year, month, day) `<` and `<=` |
| Summary.StripTags | fam_guy_ep_email.py:80 | deleting `<p>`/`</p>` matches never makes the text longer |
| Summary.StripTagsKeepsUntagged | fam_guy_ep_email.py:80 | a text where `</?p>` matches nowhere is returned unchanged |
| Summary.StripTagsShortens | fam_guy_ep_email.py:80 | a text with a match at any position comes back strictly shorter |
| Summary.StripTagsIdentityIff | fam_guy_ep_email.py:80 | the substitution leaves a text unchanged if and only if the pattern matches nowhere in it |
| Summary.StripTagsDropsMatch | fam_guy_ep_email.py:80 | a match of `<p>` or `</p>` at the start is deleted and the pass resumes right after it |
| Summary.StripTagsKeepsFirst | fam_guy_ep_email.py:80 | before the first match, the first character is kept and the pass moves to the next one |
| Summary.FirstMatchDeleted | fam_guy_ep_email.py:80 | for the first match at position `i` of length `n`, the result is `s[..i]` followed by the pass over `s[i + n..]`; together with `StripTagsKeepsUntagged` this fixes the result on every input |
| Summary.StripTagsIsSinglePass | fam_guy_ep_email.py:80 | the substitution is one pass: `<<p>p>` becomes `<p>`, which still holds a match |
| Summary.IsSpace | fam_guy_ep_email.py:80 | the whitespace set of `str.isspace()` that `strip()` removes holds space, tab, newline and carriage return, and none of the tag characters `<`, `>`, `/`, `p` |
| Summary.TrimLeft | fam_guy_ep_email.py:80 | the result is a suffix of the input, only whitespace was removed, and it does not start with whitespace |
| Summary.TrimRight | fam_guy_ep_email.py:80 | the result is a prefix of the input, only whitespace was removed, and it does not end with whitespace |
| Summary.Strip | fam_guy_ep_email.py:80 | `str.strip()` returns a slice of the input with only whitespace around it, and the slice neither starts nor ends with whitespace |
| Summary.StripKeepsInner | fam_guy_ep_email.py:80 | a text without whitespace at either end is not changed by `strip()` |
| Summary.CleanSummary | fam_guy_ep_email.py:80 | the cleaned summary is never longer than the original and has no whitespace at either end |
| Summary.CleanUntaggedIsStrip | fam_guy_ep_email.py:80 | a summary with neither `<p>` nor `</p>` is only stripped of surrounding whitespace |
| Episodes.HasAired | fam_guy_ep_email.py:77 | `ep["airdate"] <= today` holds exactly when today is not earlier than the airdate |
| Episodes.Aired | fam_guy_ep_email.py:77 | an episode is in the aired list exactly when it is in the listing and its airdate is `<=` today; the list is no longer than the listing |
| Episodes.AiredAppend | fam_guy_ep_email.py:77 | filtering keeps source order: the filter of a concatenation is the concatenation of the filters |
| Episodes.AiredKeepsAllAired | fam_guy_ep_email.py:77 | when every episode has aired, the aired list is the listing itself |
| Episodes.LatestIndex | fam_guy_ep_email.py:79 | `max(..., key=airdate)` picks an element whose airdate is `>=` every other, and every earlier element's airdate is strictly smaller, so ties go to the first |
| Episodes.LatestIndexUnique | fam_guy_ep_email.py:79 | the first element with the greatest airdate is the one `max` picks, whatever index reaches that condition |
| Episodes.LatestIndexUsesAirdatesOnly | fam_guy_ep_email.py:79 | two lists with the same airdates position by position get the same choice, so season and number are never consulted |
| Episodes.FetchLatest | fam_guy_ep_email.py:77-81 | there is no result exactly when no episode has an airdate `<=` today |
| Episodes.FetchLatestIsFirstGreatest | fam_guy_ep_email.py:77-81 | the result is the first aired episode with the greatest airdate, with only its summary replaced by the cleaned summary |
| Episodes.SameDayFirstWins | fam_guy_ep_email.py:79 | of two aired episodes on the same day, the one listed first is chosen whatever their seasons and numbers |
| Episodes.SameDayExample | fam_guy_ep_email.py:79 | S23E5 listed before S23E6, both aired on the same day: S23E5 is chosen |
| Episodes.IsNew | fam_guy_ep_email.py:83-85 | `is_new_episode` is true with no previous record, and otherwise true only when the stored season or episode differs from the latest season or number |
| Episodes.ToStored | fam_guy_ep_email.py:62-67 | the written record has `title` = name, `season` = season, `episode` = number, `airdate` = airdate, and `is_new_episode` is false for the episode against its own record |
| Episodes.NotNewIffSameRecord | fam_guy_ep_email.py:83-85 | with no previous record every episode is new; otherwise an episode is not new exactly when the record matches the one it would write, up to title and airdate |
| Episodes.IsNewIgnoresDetails | fam_guy_ep_email.py:83-85 | `is_new_episode` depends only on the stored season and episode and on the latest season and number, not on id, name, airdate, summary or title |
| Notifier.Decide | fam_guy_ep_email.py:115-137 | the run aborts (`NoAiredEpisode`) exactly when nothing has aired; a run that sends saves the record of the episode it mailed about, whatever the mailer reported |
| Notifier.After | fam_guy_ep_email.py:136-137 | the stored record is replaced only by a run that sends, and then by the record that run saved |
| Notifier.SendsIffLatestIsNew | fam_guy_ep_email.py:118-137 | a run sends exactly when there is a latest aired episode and it is new against the stored record; the mail is about that episode |
| Notifier.FirstRunSends | fam_guy_ep_email.py:83-85 | with no stored record, a run sends as soon as anything has aired |
| Notifier.DeliveryDoesNotAffectRecord | fam_guy_ep_email.py:136-137 | the record left after a run is the same whether the mail was delivered or not |
| Notifier.SecondRunIsQuiet | fam_guy_ep_email.py:118-120 | running again over the same listing on the same day after any run does nothing |
| Notifier.FailedMailIsLost | fam_guy_ep_email.py:40-47 | after a failed mail the record is still written, and the next run over the same listing does nothing, so the mail is never retried |
| Notifier.RecordIsLatestAired | fam_guy_ep_email.py:116-137 | after a run that sent, the record holds the season and number of the first aired episode with the greatest airdate, and its airdate is `>=` every aired airdate |
| Notifier.StateStore.constructor | fam_guy_ep_email.py:52-57 | the store starts with the record read at start, or none when there is no file |
| Notifier.StateStore.Run | fam_guy_ep_email.py:108-137 | a run's outcome is `Decide` of the listing, today and the old record; the record is unchanged unless the run sent, and then it is the record of the mailed episode |

## Left out

- The HTTP request to TVMaze and the JSON decoding of `_embedded.episodes` (lines 72-76) are network I/O. The listing is an input sequence. A failed request, a missing key, or a `null` airdate or summary (which would make the comparison or `re.sub` raise) is not modelled; airdate and summary are always strings.
- `date.today()` (line 75) is the clock. Today's ISO string is a parameter.
- `send_email` (lines 32-47) builds MIME and talks SMTP. It is reduced to the boolean `delivered`, which no saved state depends on.
- Errors raised while building the message or filling the template stop the run after the episode was judged new, with nothing sent and nothing saved. These are the config lookups at lines 35-36 and `Template.substitute` at line 128, which raises on an unknown placeholder. They are outside the `try` of `send_email` and are not modelled: `Decide` has no outcome for them.
- `load_config`, `load_template`, `load_previous_episode` and `save_latest_episode` read and write files. Only the record's content is modelled, as the `StateStore` field. Malformed or partial state files are not modelled.
- The subject line, the `string.Template` substitution and the `print` logging (lines 68, 119-134) are not modelled. Only their content is presentation; a failure of the substitution is the run-stopping error above.
- `check_and_install_requirements` (lines 88-102) installs packages with pip at start-up. This is environment plumbing.
- The in-place write of the cleaned summary into the chosen episode's dict (line 80) is modelled as a value update. The dict is shared with the fetched listing, but nothing reads the listing afterwards.
- `StrOrder.StrLt` compares Dafny `char`s, which are Unicode scalar values. Python compares code points, so the two orders differ only for lone surrogates, which Dafny strings cannot hold.
