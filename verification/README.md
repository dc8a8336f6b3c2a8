# Grandfather-clock chime drift: a Dafny model

The grandclock scripts record the minutes around each hour, find the strikes of a
mechanical clock's chime in the recording, and log how far the first strike lies from
the hour mark. A second script bounds the archive of recordings that failed to upload.
This project models the pure logic behind those scripts and proves properties of it:

- **Strike-window selection** (`get_chime_times`). The recording's start hour gives the
  number of strikes to expect on a twelve-hour dial. A window of that many consecutive
  peak times slides over the peaks, and the first window whose mean gap is under two
  seconds is returned. Peak times are integer microseconds since the Unix epoch.
  (module `ChimeWindow`, file `chime_window.dfy`)
- **Drift extraction** (`extract_drift`). The first strike is compared with the whole
  hour picked by its minute field: above 30 (from hh:31:00 on), the next hour; otherwise
  the current one, so hh:30:59 still counts against hh:00. The drift is the signed
  difference in microseconds. (module `Drift`, `drift.dfy`; the
  datetime fields come from module `Clock`, `clock.dfy`)
- **Waveform compression** (`compress_waveform` and its `chunks` generator). A waveform is
  cut into slices of `n` samples and each slice becomes its mean. (module `Chunking`,
  `chunking.dfy`)
- **Archive retention** (`remove_excess_files`). Only `.wav` names are considered. They are
  sorted, and the first in sorted order is deleted, one per round, until at most 168
  remain. (module `Archive`, `archive.dfy`; Python string order and `list.sort` are in
  module `NameOrder`, `name_order.dfy`)

`wrappers.dfy` holds the `Option` type. `sums.dfy` holds integer sums shared by the
mean-gap test and the compression.

The scripts behave as follows, and the model keeps each of these points:

- Peaks come from one `find_peaks` call with fixed thresholds.
- A window qualifies when the mean gap between its consecutive peaks is under 2 s.
- The first qualifying window is returned and later windows are not examined. When no
  window qualifies, the result is None.
- The strike count is (start hour + 1), reduced by 12 when above 12. So start hours 0
  and 12 expect one strike and start hours 11 and 23 expect twelve.
- With a single expected strike, the gap list of every window is empty and its mean is
  undefined.
- Drift is a `timedelta` with microsecond resolution. Its sign comes from the minute of
  the first strike, which picks the hour mark.

## Model

| member | source | states |
|---|---|---|
| ChimeWindow.AimHour | grandclock/check_chime.py:41-43 | the expected strike count lies in 1..12 and is congruent to start hour + 1 modulo 12 |
| ChimeWindow.AimHourBoundaries | grandclock/check_chime.py:41-43 | hours 11 and 23 expect twelve strikes, hours 0 and 12 expect one, and h and h + 12 expect the same count |
| ChimeWindow.Gaps | grandclock/check_chime.py:48 | gap i of a window is the difference between its elements i + 1 and i; a window of m times has m - 1 gaps |
| ChimeWindow.GapsTelescope | grandclock/check_chime.py:48 | the gaps of a window sum to its last time minus its first |
| ChimeWindow.MeanGapBelow | grandclock/check_chime.py:48-49 | the test `np.mean(dif) < timedelta(seconds=2)` on the exact mean; MeanGapBelowIffSpan states what it decides |
| ChimeWindow.MeanGapBelowIffSpan | grandclock/check_chime.py:48-49 | the mean gap is under the limit exactly when last - first < limit * (m - 1) |
| ChimeWindow.FirstQualifying | grandclock/check_chime.py:46-51 | reference search: the start it returns qualifies and every earlier start from `from` on fails; None means every start fails |
| ChimeWindow.FindChimeWindow | grandclock/check_chime.py:45-52 | the sliding-window loop returns the same slice as the reference search: times[s .. s + k) at the least start s whose mean gap is under the limit; None exactly when no start qualifies (so also when fewer than k times exist); a returned window has k times and spans less than limit * (k - 1) |
| ChimeWindow.StrikesExpected | grandclock/check_chime.py:41-43 | the strike count for a start timestamp lies in 1..12 and is congruent to the timestamp's UTC hour + 1 modulo 12 |
| ChimeWindow.GetChimeTimes | grandclock/check_chime.py:41-52 | with k strikes expected from the recording's start hour: k = 1 gives None; otherwise the result is the reference search's first window of k peaks whose mean gap is under 2 s, None when there is none; a returned window holds k peaks |
| ChimeWindow.FirstQualifyingIsLeast | grandclock/check_chime.py:46-51 | a start is the least qualifying one exactly when the reference search returns it |
| ChimeWindow.FirstQualifyingExample | grandclock/check_chime.py:45-52 | a stray peak 10 s before three strikes 1 s apart is skipped and the search starts at the strikes; two peaks for three strikes give nothing |
| Clock.SinceMidnight | grandclock/check_chime.py:64-65 | the fields denote a duration in [0, 24 h) whose whole hours are the hour field |
| Clock.FromTimestamp | grandclock/check_chime.py:38 | the fields of a timestamp are valid datetime fields and denote the timestamp's offset into its UTC day |
| Clock.FromTimestampOfSinceMidnight | grandclock/check_chime.py:64-65 | splitting the duration of valid fields back into fields returns the same fields |
| Clock.SinceMidnightInjective | grandclock/check_chime.py:64-65 | distinct valid fields denote distinct durations |
| Drift.ExpectedHour | grandclock/check_chime.py:59-62 | the hour mark is the strike's hour or the next one, and the strike lies in [-29 min, +31 min) of it |
| Drift.ExtractDrift | grandclock/check_chime.py:55-68 | None exactly for an empty list; otherwise the drift differs from the first strike's time of day by a whole number of hours, lies in [-29 min, +31 min), and is negative exactly when the strike's minute exceeds 30 |
| Drift.DriftUsesFirstOnly | grandclock/check_chime.py:57 | strikes after the first never change the drift |
| Drift.DriftUnique | grandclock/check_chime.py:59-67 | two offsets in [-29 min, +31 min) from the same time by whole hours are equal, so the contract of ExtractDrift fixes its result |
| Drift.DriftRoundTrip | grandclock/check_chime.py:59-67 | the chosen hour mark plus the drift gives back the strike's fields, also when the mark is 24:00 |
| Drift.DriftExamples | grandclock/check_chime.py:59-67 | 23:58 is two minutes early against 24:00 with no midnight wrap, 16:03 is three minutes late, 10:30:59.999999 is just under 31 minutes late |
| Chunking.Chunks | grandclock/check_chime.py:77-79 | concatenating the slices gives back the input; every slice is non-empty and at most n long; all but the last are exactly n long; (count - 1) * n < length <= count * n |
| Chunking.ChunkCount | grandclock/check_chime.py:78 | the generator yields ceil(length / n) slices |
| Chunking.ChunkAt | grandclock/check_chime.py:78-79 | slice j is l[j * n : j * n + n] clipped to the length, which is what the generator yields for loop index j * n |
| Chunking.Mean | grandclock/check_chime.py:81 | the mean of a slice times its length is the slice's sum |
| Chunking.Means | grandclock/check_chime.py:81 | one mean per slice, in order |
| Chunking.Trunc | grandclock/check_chime.py:75 | int() on a float truncates toward zero |
| Chunking.CompressWaveform | grandclock/check_chime.py:71-82 | a rate truncating to 0 fails, as range does; a negative one gives an empty result; a positive rate n gives ceil(length / n) values |
| Chunking.CompressAt | grandclock/check_chime.py:75-81 | compressed sample j is the mean of a[j * n : j * n + n], clipped to the length |
| Chunking.MeanWithin | grandclock/check_chime.py:81 | the mean of values in [lo, hi] lies in [lo, hi] |
| Chunking.CompressWithinRange | grandclock/check_chime.py:81 | every compressed value lies within the amplitude range of the waveform |
| NameOrder.NotAfter | grandclock/archive_checker.py:12 | Python's `<=` on `str`: a proper prefix comes first, otherwise the first differing character decides by code point; the four lemmas below show it is a total order |
| NameOrder.NotAfterReflexive | grandclock/archive_checker.py:12 | every name is not after itself |
| NameOrder.NotAfterTotal | grandclock/archive_checker.py:12 | any two names are comparable |
| NameOrder.NotAfterAntisymmetric | grandclock/archive_checker.py:12 | names not after each other are equal |
| NameOrder.NotAfterTransitive | grandclock/archive_checker.py:12 | the order is transitive |
| NameOrder.Insert | grandclock/archive_checker.py:12 | inserting into an ascending list keeps it ascending and adds exactly the one element |
| NameOrder.Sort | grandclock/archive_checker.py:12 | the sorted names are an ascending permutation of the input |
| NameOrder.SortedUnique | grandclock/archive_checker.py:12 | two ascending lists with the same elements are equal, so the sort result is determined |
| Archive.WavFiles | grandclock/archive_checker.py:11 | the names ending in `.wav`, in listing order; WavFilesCount states its contents |
| Archive.WavFilesCount | grandclock/archive_checker.py:11 | the filter keeps every .wav name as often as it occurs and drops every other name |
| Archive.WithoutCount | grandclock/archive_checker.py:15 | deleting a name takes away its copies and leaves every other name as it was |
| Archive.Without | grandclock/archive_checker.py:15 | the listing once a name is deleted; WithoutCount states its contents |
| Archive.WavFilesWithout | grandclock/archive_checker.py:11-15 | filtering .wav names commutes with deleting a name |
| Archive.Membership | grandclock/archive_checker.py:11-15 | a name is in the filtered listing exactly when it is a .wav name of the listing, and in the listing after a deletion exactly when it is another name of the listing |
| Archive.InSortedWavs | grandclock/archive_checker.py:11-12 | a name is among the sorted .wav names exactly when it is a .wav name of the listing |
| Archive.StepRemovesOne | grandclock/archive_checker.py:15-16 | one deletion removes exactly one name: the listing and its .wav names each shrink by one and stay distinct, so the recursion terminates |
| Archive.SmallestIsWav | grandclock/archive_checker.py:12-15 | the name the policy deletes is a .wav name of the listing |
| Archive.Smallest | grandclock/archive_checker.py:12-15 | `files[0]` after the sort, the name a round deletes; SmallestIsWav shows it is a .wav name of the listing |
| Archive.Step | grandclock/archive_checker.py:13-16 | the listing after one round; StepShrinks states its effect |
| Archive.StepShrinks | grandclock/archive_checker.py:13-16 | one round keeps the listing distinct, removes exactly the smallest .wav name and no other name, and leaves one .wav name fewer |
| Archive.RemoveExcessFiles | grandclock/archive_checker.py:8-16 | nothing is added, names not ending in .wav are never removed, min(n, 168) .wav names remain, and a listing with at most 168 is left unchanged |
| Archive.SortAfterStep | grandclock/archive_checker.py:12-16 | after deleting the smallest .wav name, the next round sorts the rest of the old order |
| Archive.RetainsGreatest | grandclock/archive_checker.py:12-16 | the .wav names kept, sorted, are the last min(n, 168) of the original sorted names |
| Archive.RemovedBeforeCut | grandclock/archive_checker.py:12-16 | a deleted .wav name stands among the first n - 168 sorted names |
| Archive.KeptAfterCut | grandclock/archive_checker.py:12-16 | a kept .wav name stands after the first n - 168 sorted names |
| Archive.RemovesSmallest | grandclock/archive_checker.py:12-16 | every deleted .wav name sorts before every kept one |

## Left out

- Reading the WAV file and the file's creation time are I/O. The recording's start
  time and the peak times are parameters, in integer microseconds.
- Clock.FromTimestamp: it returns fields for every integer timestamp. Python's
  `utcfromtimestamp` raises ValueError when the date falls outside years 1 to 9999, and
  OverflowError or OSError beyond the platform's time range. Those error paths are not
  modelled; the model computes the time-of-day fields of any timestamp.
- `utcfromtimestamp` is modelled by Clock.FromTimestamp on integer microseconds. Its
  rounding of a float timestamp to whole microseconds is not modelled.
- `find_peaks` is a foreign library call. Its output is taken as the input sequence. The
  search does not need the peaks to be increasing or at least half a second apart, so
  those facts are not stated.
- The conversion `start_time + peak / fs` is floating point. The model works on integer
  microseconds, so float rounding of the timestamps is not modelled.
- ChimeWindow.MeanGapBelow: the test uses the exact real mean. Python divides the
  summed `timedelta` by the count and rounds to whole microseconds. That changes the
  verdict only when the mean is within half a microsecond of 2 s.
  ChimeWindow.FindChimeWindow and ChimeWindow.GetChimeTimes inherit this difference.
- ChimeWindow.GetChimeTimes: a single expected strike (start hours 0 and 12) with at
  least one peak is excluded by its precondition. The code then takes `np.mean` of an
  empty list and compares the result with a `timedelta`, which has no defined result.
  With no peaks the loop never runs and the result (None) is modelled.
- Chunking.Mean and Chunking.Means: the slice mean is exact over the reals. `np.mean` computes in floating
  point.
- Chunking.CompressWaveform: the rate is taken as a real number. `int()` also takes
  integer strings such as "3", which act like the number they spell. It raises on the
  floats nan and infinity and on strings such as "3.5" or "x"; those rates are not
  modelled.
- `show_waveform` only plots, and `PostToSheets` is spreadsheet network I/O with
  sleep-based retries. Both are left out.
- The `__main__` blocks and the empty `main` have no logic. A `None` window passed on to
  `extract_drift` would fail on indexing, just as the empty list does here.
- Archive.RemoveExcessFiles: every round always succeeds and the recursion is
  unbounded. In Python each round adds a stack frame, so with the default recursion
  limit of 1000 a listing with more than about 1168 .wav names raises RecursionError
  after about 1000 deletions, and more than 168 names remain. `os.remove` also raises
  when a .wav entry is a directory or cannot be deleted. Names from `os.listdir` that
  hold lone surrogates cannot be Dafny strings. None of these cases is modelled.
- `os.listdir` and `os.remove` are I/O. A directory listing is a sequence of distinct
  names, and a deletion is the listing without that name.
