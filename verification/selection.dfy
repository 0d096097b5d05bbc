/**
 * The decision logic of the `run` command: the "not loaded" exit, the date
 * filter, the "nothing for that date" exit, the coin flip between audio and
 * link, and the pick within the chosen list. The random choices are oracle
 * parameters: `coin` stands for `random.choice([True, False])`, and `pick`
 * for `random.choice` over a list (the element at `pick` modulo its length).
 */
module Selection {
  import opened Wrappers
  import opened Text
  import opened CatalogScan

  /**
   * The optional date argument of `run`: omitted, or given as text together
   * with the outcome of parsing it as `DD.MM.YYYY` (`None` when parsing fails).
   */
  datatype DateArg = Omitted | Given(text: string, parsed: Option<Timestamp>)

  /** The outcome of fetching a file over HTTP. */
  datatype Download = Response(status: int) | TransportFailure

  /** What `run` answers, `sender` being the name of the user who invoked the command. */
  datatype Reply =
    | Unavailable                                        // the catalog was never built: the command raises
    | NotLoaded                                          // no audio files and no links are known
    | BadDate                                            // the date argument does not parse
    | NothingForDate                                     // nothing was posted on or after the date
    | SentFile(sender: string, url: string, filename: string)
    | FetchFailed(url: string, download: Download)
    | SentLink(sender: string, url: string)
  {
    predicate SendsAudio() { SentFile? || FetchFailed? }
  }

  /** The start of the date window; `None` when the argument does not parse. An empty text counts as omitted. */
  function StartDate(arg: DateArg): (start: Option<Timestamp>)
    ensures arg.Omitted? || arg.text == [] ==> start == Some(MinTimestamp)
    ensures arg.Given? && arg.text != [] ==> start == arg.parsed
  {
    match arg
    case Omitted => Some(MinTimestamp)
    case Given(text, parsed) => if text == [] then Some(MinTimestamp) else parsed
  }

  /** The URLs of `urls` dated at or after `start`, in order. */
  function FilterSince(urls: seq<string>, dates: map<string, Timestamp>, start: Timestamp): (kept: seq<string>)
    requires forall u :: u in urls ==> u in dates
    ensures forall u :: u in kept <==> u in urls && dates[u] >= start
  {
    if |urls| == 0 then []
    else
      var u := urls[|urls| - 1];
      FilterSince(urls[..|urls| - 1], dates, start) + (if dates[u] >= start then [u] else [])
  }

  /** `xs` is `ys` with some elements removed, the rest in their original order. */
  predicate Subsequence(xs: seq<string>, ys: seq<string>)
    decreases |ys|
  {
    if |xs| == 0 then true
    else if |ys| == 0 then false
    else
      var x, y := xs[|xs| - 1], ys[|ys| - 1];
      (x == y && Subsequence(xs[..|xs| - 1], ys[..|ys| - 1])) || Subsequence(xs, ys[..|ys| - 1])
  }

  /** The filter keeps an order-preserving subsequence of its input. */
  lemma {:induction false} FilterIsSubsequence(urls: seq<string>, dates: map<string, Timestamp>, start: Timestamp)
    requires forall u :: u in urls ==> u in dates
    ensures Subsequence(FilterSince(urls, dates, start), urls)
    decreases |urls|
  {
    if |urls| > 0 {
      var n := |urls| - 1;
      var init := urls[..n];
      var u := urls[n];
      var rest := FilterSince(init, dates, start);
      FilterIsSubsequence(init, dates, start);
      if dates[u] >= start {
        var kept := rest + [u];
        assert kept[..|kept| - 1] == rest;
      } else {
        assert rest + [] == rest;
        SubsequenceExtend(rest, init, u);
      }
    }
  }

  lemma {:induction false} SubsequenceExtend(xs: seq<string>, ys: seq<string>, y: string)
    requires Subsequence(xs, ys)
    ensures Subsequence(xs, ys + [y])
  {
    assert (ys + [y])[..|ys|] == ys;
  }

  /**
   * The filter keeps each URL dated at or after `start` as many times as it is
   * listed, and drops every other URL entirely.
   */
  lemma {:induction false} FilterCounts(urls: seq<string>, dates: map<string, Timestamp>, start: Timestamp, u: string)
    requires forall v :: v in urls ==> v in dates
    ensures multiset(FilterSince(urls, dates, start))[u] ==
      if u in dates && dates[u] >= start then multiset(urls)[u] else 0
    decreases |urls|
  {
    if |urls| == 0 {
    } else {
      var n := |urls| - 1;
      var init := urls[..n];
      var v := urls[n];
      FilterCounts(init, dates, start, u);
      assert urls == init + [v];
      assert multiset(urls) == multiset(init) + multiset{v};
      var tail := if dates[v] >= start then [v] else [];
      assert multiset(FilterSince(urls, dates, start)) == multiset(FilterSince(init, dates, start)) + multiset(tail);
    }
  }

  /** From the earliest moment, the filter keeps everything: omitting the date filters nothing out. */
  lemma {:induction false} FilterFromMinKeepsAll(urls: seq<string>, dates: map<string, Timestamp>)
    requires forall u :: u in urls ==> u in dates
    ensures FilterSince(urls, dates, MinTimestamp) == urls
    decreases |urls|
  {
    if |urls| > 0 {
      var n := |urls| - 1;
      FilterFromMinKeepsAll(urls[..n], dates);
      assert urls == urls[..n] + [urls[n]];
    }
  }

  /** `u` is listed in `urls` and was posted at or after `start`. */
  ghost predicate Eligible(urls: seq<string>, dates: map<string, Timestamp>, start: Timestamp, u: string) {
    u in urls && u in dates && dates[u] >= start
  }

  /** `random.choice(xs)`, the oracle `pick` standing for the random draw. */
  function Pick(xs: seq<string>, pick: nat): (x: string)
    requires xs != []
    ensures x in xs
  {
    xs[pick % |xs|]
  }

  /** Every element can be drawn. */
  lemma PickReaches(xs: seq<string>, k: nat)
    requires k < |xs|
    ensures Pick(xs, k) == xs[k]
  {
  }

  /**
   * The branch of `run` after filtering: audio when an audio file is
   * eligible and either no link is or the coin says audio, else a link.
   */
  function Choose(audio: seq<string>, links: seq<string>, coin: bool, pick: nat, download: Download, sender: string): (reply: Reply)
    requires audio != [] || links != []
    ensures reply.SendsAudio() ==> reply.url in audio && (links == [] || coin)
    ensures reply.SentLink? ==> reply.url in links && reply.sender == sender && (audio == [] || !coin)
    ensures reply.SentFile? ==> download == Response(200) && reply.sender == sender && reply.filename == Filename(reply.url)
    ensures reply.FetchFailed? ==> download != Response(200) && reply.download == download
    ensures reply.SendsAudio() || reply.SentLink?
  {
    if audio != [] && (links == [] || coin) then
      var url := Pick(audio, pick);
      if download == Response(200) then SentFile(sender, url, Filename(url))
      else FetchFailed(url, download)
    else
      SentLink(sender, Pick(links, pick))
  }

  /** One invocation of `run`, given the catalog as it stands (`None` if it was never built). */
  function Run(state: Option<Catalog>, arg: DateArg, coin: bool, pick: nat, download: Download, sender: string): (reply: Reply)
    requires state.Some? ==> state.value.Dated()
    ensures reply.Unavailable? <==> state.None?
    ensures reply.NotLoaded? <==> state.Some? && state.value.audioFiles == [] && state.value.links == []
    ensures reply.BadDate? <==>
      state.Some? && (state.value.audioFiles != [] || state.value.links != []) && StartDate(arg).None?
    ensures reply.SendsAudio() ==>
      && state.Some? && StartDate(arg).Some?
      && Eligible(state.value.audioFiles, state.value.dates, StartDate(arg).value, reply.url)
    ensures reply.SentLink? ==>
      && state.Some? && StartDate(arg).Some?
      && Eligible(state.value.links, state.value.dates, StartDate(arg).value, reply.url)
  {
    match state
    case None => Unavailable
    case Some(cat) =>
      if cat.audioFiles == [] && cat.links == [] then NotLoaded
      else
        match StartDate(arg)
        case None => BadDate
        case Some(start) =>
          var audio := FilterSince(cat.audioFiles, cat.dates, start);
          var links := FilterSince(cat.links, cat.dates, start);
          if audio == [] && links == [] then NothingForDate
          else Choose(audio, links, coin, pick, download, sender)
  }

  /** `run` answers "nothing for that date" exactly when no listed URL was posted at or after the start date. */
  lemma NothingForDateExactly(cat: Catalog, arg: DateArg, start: Timestamp, coin: bool, pick: nat, download: Download, sender: string)
    requires cat.Dated()
    requires cat.audioFiles != [] || cat.links != []
    requires StartDate(arg) == Some(start)
    ensures Run(Some(cat), arg, coin, pick, download, sender).NothingForDate? <==>
      forall u :: u in cat.audioFiles || u in cat.links ==> cat.dates[u] < start
  {
    var audio := FilterSince(cat.audioFiles, cat.dates, start);
    var links := FilterSince(cat.links, cat.dates, start);
    var reply := Run(Some(cat), arg, coin, pick, download, sender);
    if audio == [] && links == [] {
      assert reply == NothingForDate;
      forall u | u in cat.audioFiles || u in cat.links ensures cat.dates[u] < start {
        assert u !in audio && u !in links;
      }
    } else {
      assert reply == Choose(audio, links, coin, pick, download, sender);
      var u := if audio != [] then audio[0] else links[0];
      assert u in cat.audioFiles || u in cat.links;
      assert cat.dates[u] >= start;
    }
  }

  /**
   * The kind of the reply: audio exactly when some audio file is eligible and
   * either no link is or the coin says audio; a link exactly when some link is
   * eligible and either no audio file is or the coin says link.
   */
  lemma KindChoice(cat: Catalog, arg: DateArg, start: Timestamp, coin: bool, pick: nat, download: Download, sender: string)
    requires cat.Dated()
    requires cat.audioFiles != [] || cat.links != []
    requires StartDate(arg) == Some(start)
    ensures var reply := Run(Some(cat), arg, coin, pick, download, sender);
      var hasAudio := exists u :: Eligible(cat.audioFiles, cat.dates, start, u);
      var hasLink := exists u :: Eligible(cat.links, cat.dates, start, u);
      && (reply.SendsAudio() <==> hasAudio && (!hasLink || coin))
      && (reply.SentLink? <==> hasLink && (!hasAudio || !coin))
  {
    var audio := FilterSince(cat.audioFiles, cat.dates, start);
    var links := FilterSince(cat.links, cat.dates, start);
    assert audio != [] <==> exists u :: Eligible(cat.audioFiles, cat.dates, start, u) by {
      if audio != [] {
        assert Eligible(cat.audioFiles, cat.dates, start, audio[0]);
      }
    }
    assert links != [] <==> exists u :: Eligible(cat.links, cat.dates, start, u) by {
      if links != [] {
        assert Eligible(cat.links, cat.dates, start, links[0]);
      }
    }
  }

  /** The coin is consulted only when both an audio file and a link are eligible. */
  lemma CoinOnlyBreaksTies(cat: Catalog, arg: DateArg, start: Timestamp, pick: nat, download: Download, sender: string)
    requires cat.Dated()
    requires StartDate(arg) == Some(start)
    requires !(exists u :: Eligible(cat.audioFiles, cat.dates, start, u)) || !(exists u :: Eligible(cat.links, cat.dates, start, u))
    ensures Run(Some(cat), arg, true, pick, download, sender) == Run(Some(cat), arg, false, pick, download, sender)
  {
    var audio := FilterSince(cat.audioFiles, cat.dates, start);
    var links := FilterSince(cat.links, cat.dates, start);
    if audio != [] {
      assert Eligible(cat.audioFiles, cat.dates, start, audio[0]);
    }
    if links != [] {
      assert Eligible(cat.links, cat.dates, start, links[0]);
    }
  }

  /** Past both early exits, `run` is the choice between the filtered lists. */
  lemma RunChooses(cat: Catalog, arg: DateArg, start: Timestamp, coin: bool, pick: nat, download: Download, sender: string)
    requires cat.Dated()
    requires StartDate(arg) == Some(start)
    requires FilterSince(cat.audioFiles, cat.dates, start) != [] || FilterSince(cat.links, cat.dates, start) != []
    ensures Run(Some(cat), arg, coin, pick, download, sender)
         == Choose(FilterSince(cat.audioFiles, cat.dates, start), FilterSince(cat.links, cat.dates, start), coin, pick, download, sender)
  {
    var audio := FilterSince(cat.audioFiles, cat.dates, start);
    var links := FilterSince(cat.links, cat.dates, start);
    assert cat.audioFiles != [] || cat.links != [] by {
      if audio != [] {
        assert audio[0] in cat.audioFiles;
      } else {
        assert links[0] in cat.links;
      }
    }
  }

  /** Every eligible audio file is sent for some pick when the coin says audio. */
  lemma EveryAudioReachable(cat: Catalog, arg: DateArg, start: Timestamp, sender: string, u: string)
    requires cat.Dated()
    requires StartDate(arg) == Some(start)
    requires Eligible(cat.audioFiles, cat.dates, start, u)
    ensures exists pick: nat :: Run(Some(cat), arg, true, pick, Response(200), sender) == SentFile(sender, u, Filename(u))
  {
    var audio := FilterSince(cat.audioFiles, cat.dates, start);
    var links := FilterSince(cat.links, cat.dates, start);
    assert u in audio;
    var k :| 0 <= k < |audio| && audio[k] == u;
    PickReaches(audio, k);
    RunChooses(cat, arg, start, true, k, Response(200), sender);
    assert Choose(audio, links, true, k, Response(200), sender) == SentFile(sender, u, Filename(u));
  }

  /** Every eligible link is sent for some pick when the coin says link. */
  lemma EveryLinkReachable(cat: Catalog, arg: DateArg, start: Timestamp, download: Download, sender: string, u: string)
    requires cat.Dated()
    requires StartDate(arg) == Some(start)
    requires Eligible(cat.links, cat.dates, start, u)
    ensures exists pick: nat :: Run(Some(cat), arg, false, pick, download, sender) == SentLink(sender, u)
  {
    var audio := FilterSince(cat.audioFiles, cat.dates, start);
    var links := FilterSince(cat.links, cat.dates, start);
    assert u in links;
    var k :| 0 <= k < |links| && links[k] == u;
    PickReaches(links, k);
    RunChooses(cat, arg, start, false, k, download, sender);
    assert Choose(audio, links, false, k, download, sender) == SentLink(sender, u);
  }

  /**
   * Without a date argument the whole catalog is eligible: a non-empty catalog
   * never yields "nothing for that date", and the reply is the one for an
   * explicit date at the earliest moment.
   */
  lemma OmittedDateMeansEverything(cat: Catalog, text: string, coin: bool, pick: nat, download: Download, sender: string)
    requires cat.Dated()
    requires text != []
    ensures Run(Some(cat), Omitted, coin, pick, download, sender)
         == Run(Some(cat), Given(text, Some(MinTimestamp)), coin, pick, download, sender)
    ensures cat.audioFiles != [] || cat.links != [] ==>
      !Run(Some(cat), Omitted, coin, pick, download, sender).NothingForDate?
  {
    FilterFromMinKeepsAll(cat.audioFiles, cat.dates);
    FilterFromMinKeepsAll(cat.links, cat.dates);
  }

  /** A freshly refreshed catalog meets `run`'s requirement, so the date lookup never fails. */
  lemma RefreshedCatalogIsDated(current: Option<Catalog>, access: Access, history: seq<Message>, failure: Option<nat>)
    requires current.Some? ==> current.value.Dated()
    ensures var next := Refresh(current, access, history, failure);
      next.Some? ==> next.value.Dated()
  {
  }

}
