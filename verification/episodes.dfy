/**
 * Episode selection in fetch_latest_episode (fam_guy_ep_email.py, lines
 * 70-81), the change test is_new_episode (lines 83-85) and the record
 * written by save_latest_episode (lines 59-67).
 */
module Episodes {
  import opened Wrappers
  import opened StrOrder
  import opened Summary

  /** One element of the listing's episode array. */
  datatype Episode = Episode(
    id: int, season: int, number: int, name: string, airdate: string, summary: string)

  /** The persisted state record: the listing's `name` and `number` are stored as `title` and `episode`. */
  datatype Stored = Stored(title: string, season: int, episode: int, airdate: string)

  /** `ep["airdate"] <= today`, with today's date as an ISO string: today is not earlier. */
  predicate HasAired(e: Episode, today: string): (r: bool)
    ensures r <==> !StrLt(today, e.airdate)
  {
    StrLe(e.airdate, today)
  }

  /** The list comprehension keeping the aired episodes, in source order. */
  function Aired(episodes: seq<Episode>, today: string): (r: seq<Episode>)
    ensures |r| <= |episodes|
    ensures forall e :: e in r <==> e in episodes && HasAired(e, today)
  {
    if episodes == [] then []
    else (if HasAired(episodes[0], today) then [episodes[0]] else []) + Aired(episodes[1..], today)
  }

  /** Filtering a concatenation filters each part and keeps them in order. */
  lemma {:induction false} AiredAppend(a: seq<Episode>, b: seq<Episode>, today: string)
    ensures Aired(a + b, today) == Aired(a, today) + Aired(b, today)
    decreases |a|
  {
    if a != [] {
      assert (a + b)[0] == a[0] && (a + b)[1..] == a[1..] + b;
      AiredAppend(a[1..], b, today);
    } else {
      assert a + b == b;
    }
  }

  /** When every episode has aired, the filter keeps the whole list as it is. */
  lemma {:induction false} AiredKeepsAllAired(episodes: seq<Episode>, today: string)
    requires forall i :: 0 <= i < |episodes| ==> HasAired(episodes[i], today)
    ensures Aired(episodes, today) == episodes
    decreases |episodes|
  {
    if episodes != [] {
      AiredKeepsAllAired(episodes[1..], today);
    }
  }

  /**
   * Index chosen by `max(aired, key=airdate)`: a left-to-right scan that
   * replaces its candidate only on a strictly greater airdate. The result has
   * the greatest airdate, and every earlier element has a smaller one, so it
   * is the first element holding the greatest airdate.
   */
  function LatestIndex(aired: seq<Episode>): (k: nat)
    requires aired != []
    ensures k < |aired|
    ensures forall j :: 0 <= j < |aired| ==> StrLe(aired[j].airdate, aired[k].airdate)
    ensures forall j :: 0 <= j < k ==> StrLt(aired[j].airdate, aired[k].airdate)
    decreases |aired|
  {
    if |aired| == 1 then 0
    else
      var k := LatestIndex(aired[..|aired| - 1]);
      var last := |aired| - 1;
      if StrLt(aired[k].airdate, aired[last].airdate) then
        LatestStep(aired, k);
        last
      else
        StrLtTotal(aired[k].airdate, aired[last].airdate);
        k
  }

  /** Promoting the last element keeps "greatest" and "first greatest". */
  lemma LatestStep(aired: seq<Episode>, k: nat)
    requires |aired| > 1 && k < |aired| - 1
    requires forall j :: 0 <= j < |aired| - 1 ==> StrLe(aired[j].airdate, aired[k].airdate)
    requires StrLt(aired[k].airdate, aired[|aired| - 1].airdate)
    ensures forall j :: 0 <= j < |aired| - 1 ==> StrLt(aired[j].airdate, aired[|aired| - 1].airdate)
  {
    forall j | 0 <= j < |aired| - 1
      ensures StrLt(aired[j].airdate, aired[|aired| - 1].airdate)
    {
      if aired[j].airdate != aired[k].airdate {
        StrLtTransitive(aired[j].airdate, aired[k].airdate, aired[|aired| - 1].airdate);
      }
    }
  }

  /** Being the first element with the greatest airdate fixes the index. */
  lemma LatestIndexUnique(aired: seq<Episode>, i: nat)
    requires i < |aired|
    requires forall j :: 0 <= j < |aired| ==> StrLe(aired[j].airdate, aired[i].airdate)
    requires forall j :: 0 <= j < i ==> StrLt(aired[j].airdate, aired[i].airdate)
    ensures LatestIndex(aired) == i
  {
    var k := LatestIndex(aired);
    if k < i {
      StrLtAsymmetric(aired[k].airdate, aired[i].airdate);
    } else if i < k {
      StrLtAsymmetric(aired[i].airdate, aired[k].airdate);
    }
  }

  /** Only airdates take part in the choice: season and number are never consulted. */
  lemma LatestIndexUsesAirdatesOnly(s: seq<Episode>, t: seq<Episode>)
    requires s != [] && |s| == |t|
    requires forall j :: 0 <= j < |s| ==> s[j].airdate == t[j].airdate
    ensures LatestIndex(s) == LatestIndex(t)
  {
    LatestIndexUnique(t, LatestIndex(s));
  }

  /**
   * `latest = max(aired, ...)` followed by the in-place cleanup of its
   * summary; None where `max` of an empty list raises.
   */
  function FetchLatest(episodes: seq<Episode>, today: string): (r: Option<Episode>)
    ensures r.None? <==> forall e :: e in episodes ==> !HasAired(e, today)
  {
    var aired := Aired(episodes, today);
    if aired == [] then None
    else
      assert aired[0] in aired;
      var latest := aired[LatestIndex(aired)];
      Some(latest.(summary := CleanSummary(latest.summary)))
  }

  /**
   * The chosen episode is the first aired one with the greatest airdate, with
   * only its summary cleaned: whichever index has that property is the one
   * chosen.
   */
  lemma FetchLatestIsFirstGreatest(episodes: seq<Episode>, today: string, k: nat)
    requires k < |Aired(episodes, today)| && FirstGreatest(Aired(episodes, today), k)
    ensures var chosen := Aired(episodes, today)[k];
      FetchLatest(episodes, today) == Some(chosen.(summary := CleanSummary(chosen.summary)))
  {
    LatestIndexUnique(Aired(episodes, today), k);
  }

  /** `aired[k]` has the greatest airdate and no earlier element shares it. */
  predicate FirstGreatest(aired: seq<Episode>, k: nat)
    requires k < |aired|
  {
    && (forall j :: 0 <= j < |aired| ==> StrLe(aired[j].airdate, aired[k].airdate))
    && (forall j :: 0 <= j < k ==> StrLt(aired[j].airdate, aired[k].airdate))
  }

  /**
   * Two aired episodes on the same day: the first in source order is chosen,
   * whatever their seasons and numbers.
   */
  lemma SameDayFirstWins(first: Episode, second: Episode, today: string)
    requires HasAired(first, today) && first.airdate == second.airdate
    ensures FetchLatest([first, second], today) == Some(first.(summary := CleanSummary(first.summary)))
  {
    assert Aired([first, second], today) == [first, second] by {
      AiredKeepsAllAired([first, second], today);
    }
    StrLtIrreflexive(first.airdate);
    LatestIndexUnique([first, second], 0);
  }

  /** Two episodes of season 23 listed in this order, both airing on 6 October 2024. */
  const S23E5 := Episode(1, 23, 5, "A", "2024-10-06", "")
  const S23E6 := Episode(2, 23, 6, "B", "2024-10-06", "")

  /** For instance S23E6 listed after S23E5 on the same day is not the one chosen. */
  lemma SameDayExample()
    ensures FetchLatest([S23E5, S23E6], "2024-10-11") == Some(S23E5)
  {
    assert HasAired(S23E5, "2024-10-11") by {
      StrLtConcat("2024-10-", "06", "2024-10-", "11");
      assert "2024-10-" + "06" == S23E5.airdate && "2024-10-" + "11" == "2024-10-11";
    }
    assert CleanSummary(S23E5.summary) == S23E5.summary by {
      assert StripTags("") == "";
    }
    SameDayFirstWins(S23E5, S23E6, "2024-10-11");
  }

  /**
   * is_new_episode: `not previous`, or a different season or episode number.
   * Without a record every episode is new.
   */
  predicate IsNew(latest: Episode, previous: Option<Stored>): (r: bool)
    ensures previous.None? ==> r
    ensures r ==> previous.None? || (previous.value.season, previous.value.episode) != (latest.season, latest.number)
  {
    previous.None? || previous.value.season != latest.season || previous.value.episode != latest.number
  }

  /**
   * The record save_latest_episode writes: `name` is stored as `title` and
   * `number` as `episode`, and the episode is not new against it.
   */
  function ToStored(e: Episode): (s: Stored)
    ensures s.title == e.name && s.season == e.season && s.episode == e.number && s.airdate == e.airdate
    ensures !IsNew(e, Some(s))
  {
    Stored(e.name, e.season, e.number, e.airdate)
  }

  /**
   * An episode is not new exactly when the stored record is the one that
   * would be written for it, up to title and airdate; without a record every
   * episode is new.
   */
  lemma NotNewIffSameRecord(e: Episode, s: Stored)
    ensures !IsNew(e, Some(s)) <==> s.(title := e.name, airdate := e.airdate) == ToStored(e)
    ensures IsNew(e, None)
  {
  }

  /** Name, airdate, summary and id of the episode, title and airdate of the record play no part. */
  lemma IsNewIgnoresDetails(e: Episode, f: Episode, s: Stored, t: Stored)
    requires e.season == f.season && e.number == f.number
    requires s.season == t.season && s.episode == t.episode
    ensures IsNew(e, Some(s)) == IsNew(f, Some(t))
  {
  }
}
