/**
 * One run of main (fam_guy_ep_email.py, lines 108-137): read the stored
 * record, pick the latest aired episode, and when it is new send the mail and
 * overwrite the record. The mailer is abstract: its success is a parameter,
 * and since send_email catches every exception raised by the SMTP exchange
 * (lines 40-47) the record is overwritten whether or not the mail went out.
 */
module Notifier {
  import opened Wrappers
  import opened StrOrder
  import opened Episodes

  /** What a run did. */
  datatype RunOutcome =
    | NoAiredEpisode
      // `max` of an empty list raised: the run stopped before any send or save
    | NoAction
      // the latest aired episode matches the stored record
    | SendAndSave(episode: Episode, record: Stored, delivered: bool)
      // the mail about `episode` was attempted (`delivered` tells how it went) and `record` was written

  /** The outcome of a run over the listing `episodes` on the day `today`. */
  function Decide(episodes: seq<Episode>, today: string, previous: Option<Stored>, delivered: bool): (r: RunOutcome)
    ensures r.NoAiredEpisode? <==> forall e :: e in episodes ==> !HasAired(e, today)
    ensures r.SendAndSave? ==> r.record == ToStored(r.episode) && r.delivered == delivered
  {
    match FetchLatest(episodes, today)
    case None => NoAiredEpisode
    case Some(latest) =>
      if !IsNew(latest, previous) then NoAction
      else SendAndSave(latest, ToStored(latest), delivered)
  }

  /** The stored record once a run with outcome `outcome` is over: replaced only by a save. */
  function After(previous: Option<Stored>, outcome: RunOutcome): (r: Option<Stored>)
    ensures !outcome.SendAndSave? ==> r == previous
    ensures outcome.SendAndSave? ==> r.Some? && r.value == outcome.record
  {
    if outcome.SendAndSave? then Some(outcome.record) else previous
  }

  /**
   * A run sends exactly when some episode has aired and the latest one is new
   * against the stored record; the mail then describes that episode.
   */
  lemma SendsIffLatestIsNew(episodes: seq<Episode>, today: string, previous: Option<Stored>, delivered: bool)
    ensures var r := Decide(episodes, today, previous, delivered);
      r.SendAndSave? <==> FetchLatest(episodes, today).Some? && IsNew(FetchLatest(episodes, today).value, previous)
    ensures var r := Decide(episodes, today, previous, delivered);
      r.SendAndSave? ==> Some(r.episode) == FetchLatest(episodes, today)
  {
  }

  /** With no stored record, a run sends as soon as anything has aired. */
  lemma FirstRunSends(episodes: seq<Episode>, today: string, delivered: bool)
    requires exists e :: e in episodes && HasAired(e, today)
    ensures Decide(episodes, today, None, delivered).SendAndSave?
  {
  }

  /** The record left behind does not depend on whether the mail was delivered. */
  lemma DeliveryDoesNotAffectRecord(episodes: seq<Episode>, today: string, previous: Option<Stored>)
    ensures After(previous, Decide(episodes, today, previous, true))
         == After(previous, Decide(episodes, today, previous, false))
  {
  }

  /**
   * A second run over the same listing on the same day, after the first, does
   * nothing: the record the first one left names the latest episode.
   */
  lemma SecondRunIsQuiet(episodes: seq<Episode>, today: string, previous: Option<Stored>, d1: bool, d2: bool)
    requires exists e :: e in episodes && HasAired(e, today)
    ensures var next := After(previous, Decide(episodes, today, previous, d1));
      Decide(episodes, today, next, d2) == NoAction
  {
  }

  /**
   * A mail that failed is never retried: the record was written anyway, so
   * the next run over the same listing does nothing.
   */
  lemma FailedMailIsLost(episodes: seq<Episode>, today: string, previous: Option<Stored>)
    requires Decide(episodes, today, previous, false).SendAndSave?
    ensures var next := After(previous, Decide(episodes, today, previous, false));
      next.Some? && Decide(episodes, today, next, true) == NoAction
  {
  }

  /** After a run that sent, the record names the first aired episode with the greatest airdate. */
  lemma RecordIsLatestAired(episodes: seq<Episode>, today: string, previous: Option<Stored>, delivered: bool)
    requires Decide(episodes, today, previous, delivered).SendAndSave?
    ensures var r := Decide(episodes, today, previous, delivered);
      var aired := Aired(episodes, today);
      r.record.season == aired[LatestIndex(aired)].season &&
      r.record.episode == aired[LatestIndex(aired)].number &&
      (forall e :: e in episodes && HasAired(e, today) ==> StrLe(e.airdate, r.record.airdate))
  {
    var aired := Aired(episodes, today);
    forall e | e in episodes && HasAired(e, today)
      ensures StrLe(e.airdate, aired[LatestIndex(aired)].airdate)
    {
      var j :| 0 <= j < |aired| && aired[j] == e;
    }
  }

  /** The state the program keeps between runs: the stored episode record, if any. */
  class StateStore {
    var previous: Option<Stored>

    /** load_previous_episode: the record read at start, None when there is no file. */
    constructor (stored: Option<Stored>)
      ensures previous == stored
    {
      previous := stored;
    }

    /**
     * main: `delivered` stands for how the SMTP exchange went, which
     * send_email reports only by printing.
     */
    method Run(episodes: seq<Episode>, today: string, delivered: bool) returns (outcome: RunOutcome)
      modifies this
      ensures outcome == Decide(episodes, today, old(previous), delivered)
      ensures previous == After(old(previous), outcome)
      ensures !outcome.SendAndSave? ==> previous == old(previous)
      ensures outcome.SendAndSave? ==> previous == Some(ToStored(outcome.episode))
    {
      var latest := FetchLatest(episodes, today);
      if latest.None? {
        return NoAiredEpisode;
      }
      if !IsNew(latest.value, previous) {
        return NoAction;
      }
      var record := ToStored(latest.value);
      outcome := SendAndSave(latest.value, record, delivered);
      previous := Some(record);
    }
  }
}
