/**
 * The catalog scan of `update_audio_files`: one pass over a channel's
 * message history that collects audio attachment URLs, hyperlinks posted in
 * message text, and the creation time of the message each URL came from.
 */
module CatalogScan {
  import opened Wrappers
  import opened Text

  /** A point in time, counted from the earliest representable moment (`datetime.min`, UTC). */
  type Timestamp = nat

  const MinTimestamp: Timestamp := 0

  /** A file attached to a message; `contentType` is absent when the platform does not report one. */
  datatype Attachment = Attachment(url: string, contentType: Option<string>)

  datatype Message = Message(
    authorIsBot: bool,
    createdAt: Timestamp,
    content: string,
    attachments: seq<Attachment>)

  /** The bot's in-memory catalog: `audio_files`, `links` and `message_dates`. */
  datatype Catalog = Catalog(
    audioFiles: seq<string>,
    links: seq<string>,
    dates: map<string, Timestamp>)
  {
    /** Every listed URL has a date, so the date filter's lookup cannot fail. */
    ghost predicate Dated() {
      forall u :: u in audioFiles || u in links ==> u in dates
    }

    /** `Dated`, and every dated URL is listed. */
    ghost predicate Valid() {
      forall u :: u in dates <==> u in audioFiles || u in links
    }
  }

  const EmptyCatalog := Catalog([], [], map[])

  /** The content type is present and starts with "audio". */
  predicate IsAudio(contentType: Option<string>) {
    contentType.Some? && "audio" <= contentType.value
  }

  predicate IsLink(word: string) {
    "http://" <= word || "https://" <= word
  }

  /** The URLs of the audio attachments, in attachment order. */
  function AudioUrls(attachments: seq<Attachment>): seq<string> {
    if |attachments| == 0 then []
    else
      var a := attachments[|attachments| - 1];
      AudioUrls(attachments[..|attachments| - 1]) + (if IsAudio(a.contentType) then [a.url] else [])
  }

  /** The words that are hyperlinks, in order. */
  function LinkWords(words: seq<string>): seq<string> {
    if |words| == 0 then []
    else
      var w := words[|words| - 1];
      LinkWords(words[..|words| - 1]) + (if IsLink(w) then [w] else [])
  }

  /** `dates[u] = d` for each `u` of `urls`, one assignment after another. */
  function Stamp(dates: map<string, Timestamp>, urls: seq<string>, d: Timestamp): (r: map<string, Timestamp>)
    ensures forall u :: u in r <==> u in dates || u in urls
    ensures forall u :: u in r ==> r[u] == if u in urls then d else dates[u]
  {
    if |urls| == 0 then dates
    else Stamp(dates, urls[..|urls| - 1], d)[urls[|urls| - 1] := d]
  }

  /** Processing one message of the history. */
  function Absorb(cat: Catalog, m: Message): (r: Catalog)
    ensures cat.audioFiles <= r.audioFiles && cat.links <= r.links
    ensures cat.dates.Keys <= r.dates.Keys
  {
    if m.authorIsBot then cat
    else
      var audio := AudioUrls(m.attachments);
      var links := LinkWords(Words(m.content));
      Catalog(cat.audioFiles + audio, cat.links + links,
              Stamp(Stamp(cat.dates, audio, m.createdAt), links, m.createdAt))
  }

  /** The catalog built from `history`, processed in the order given. */
  function Scan(history: seq<Message>): (cat: Catalog)
    ensures cat.Valid()
  {
    if |history| == 0 then EmptyCatalog
    else
      var before := Scan(history[..|history| - 1]);
      AbsorbKeepsValid(before, history[|history| - 1]);
      Absorb(before, history[|history| - 1])
  }

  lemma AbsorbKeepsValid(cat: Catalog, m: Message)
    requires cat.Valid()
    ensures Absorb(cat, m).Valid()
  {
  }

  /** The catalog of two consecutive stretches of history, the later one's dates taking precedence. */
  function Merge(earlier: Catalog, later: Catalog): Catalog {
    Catalog(earlier.audioFiles + later.audioFiles, earlier.links + later.links, earlier.dates + later.dates)
  }

  /** Messages not written by bots, in order. */
  function Humans(history: seq<Message>): seq<Message> {
    if |history| == 0 then []
    else
      var m := history[|history| - 1];
      Humans(history[..|history| - 1]) + (if m.authorIsBot then [] else [m])
  }

  /** `m` is a message of a user that carries `u` as an audio attachment. */
  ghost predicate PostsAudio(m: Message, u: string) {
    && !m.authorIsBot
    && exists k :: 0 <= k < |m.attachments| && m.attachments[k].url == u && IsAudio(m.attachments[k].contentType)
  }

  /** `m` is a message of a user whose text holds `u` as a hyperlink word. */
  ghost predicate PostsLink(m: Message, u: string) {
    !m.authorIsBot && IsLink(u) && u in Words(m.content)
  }

  ghost predicate Posts(m: Message, u: string) {
    PostsAudio(m, u) || PostsLink(m, u)
  }

  /** `u` is among the URLs the scan collects from `m`. */
  predicate Contributes(m: Message, u: string) {
    !m.authorIsBot && (u in AudioUrls(m.attachments) || u in LinkWords(Words(m.content)))
  }

  /** `history[i]` is the last message of `history` from which the scan collects `u`. */
  predicate LastContributor(history: seq<Message>, i: int, u: string) {
    && 0 <= i < |history|
    && Contributes(history[i], u)
    && forall j :: i < j < |history| ==> !Contributes(history[j], u)
  }

  /** `history[i]` is the last message of `history` that posts `u`. */
  ghost predicate LastPoster(history: seq<Message>, i: int, u: string) {
    && 0 <= i < |history|
    && Posts(history[i], u)
    && forall j :: i < j < |history| ==> !Posts(history[j], u)
  }

  lemma {:induction false} AudioUrlsMembers(attachments: seq<Attachment>, u: string)
    ensures u in AudioUrls(attachments) <==>
      exists k :: 0 <= k < |attachments| && attachments[k].url == u && IsAudio(attachments[k].contentType)
    decreases |attachments|
  {
    if |attachments| > 0 {
      var n := |attachments| - 1;
      var init := attachments[..n];
      AudioUrlsMembers(init, u);
      if u in AudioUrls(init) {
        var k :| 0 <= k < |init| && init[k].url == u && IsAudio(init[k].contentType);
        assert attachments[k] == init[k];
      }
      if exists k :: 0 <= k < |attachments| && attachments[k].url == u && IsAudio(attachments[k].contentType) {
        var k :| 0 <= k < |attachments| && attachments[k].url == u && IsAudio(attachments[k].contentType);
        if k < n {
          assert init[k] == attachments[k];
        }
      }
    }
  }

  lemma {:induction false} LinkWordsMembers(words: seq<string>, u: string)
    ensures u in LinkWords(words) <==> u in words && IsLink(u)
    decreases |words|
  {
    if |words| > 0 {
      var n := |words| - 1;
      LinkWordsMembers(words[..n], u);
      assert words == words[..n] + [words[n]];
    }
  }

  /** What one user message contributes: exactly the URLs it posts. */
  lemma AbsorbedUrls(m: Message, u: string)
    requires !m.authorIsBot
    ensures u in AudioUrls(m.attachments) <==> PostsAudio(m, u)
    ensures u in LinkWords(Words(m.content)) <==> PostsLink(m, u)
  {
    AudioUrlsMembers(m.attachments, u);
    LinkWordsMembers(Words(m.content), u);
  }

  /** A message that contributes `u` dates it; any other message leaves its date as it was. */
  lemma AbsorbDates(cat: Catalog, m: Message, u: string)
    requires u in Absorb(cat, m).dates
    ensures Contributes(m, u) ==> Absorb(cat, m).dates[u] == m.createdAt
    ensures !Contributes(m, u) ==> u in cat.dates && Absorb(cat, m).dates[u] == cat.dates[u]
  {
  }

  lemma ContributesIsPosts(m: Message, u: string)
    ensures Contributes(m, u) <==> Posts(m, u)
  {
    if !m.authorIsBot {
      AbsorbedUrls(m, u);
    }
  }

  /**
   * A URL is in the scanned audio list exactly when some user message of the
   * history carries it as an attachment whose content type starts with "audio".
   */
  lemma {:induction false} ScanAudioMembers(history: seq<Message>, u: string)
    ensures u in Scan(history).audioFiles <==> exists i :: 0 <= i < |history| && PostsAudio(history[i], u)
    decreases |history|
  {
    if |history| > 0 {
      var n := |history| - 1;
      var m := history[n];
      var init := history[..n];
      ScanAudioMembers(init, u);
      var added := if m.authorIsBot then [] else AudioUrls(m.attachments);
      assert Scan(history).audioFiles == Scan(init).audioFiles + added;
      assert u in added <==> PostsAudio(m, u) by {
        if !m.authorIsBot {
          AbsorbedUrls(m, u);
        }
      }
      if exists i :: 0 <= i < |history| && PostsAudio(history[i], u) {
        var i :| 0 <= i < |history| && PostsAudio(history[i], u);
        if i < n {
          assert init[i] == history[i];
        }
      }
      if exists i :: 0 <= i < n && PostsAudio(init[i], u) {
        var i :| 0 <= i < n && PostsAudio(init[i], u);
        assert history[i] == init[i];
      }
    }
  }

  /**
   * A URL is in the scanned link list exactly when it is a whitespace-separated
   * word starting with "http://" or "https://" in the text of some user message.
   */
  lemma {:induction false} ScanLinkMembers(history: seq<Message>, u: string)
    ensures u in Scan(history).links <==> exists i :: 0 <= i < |history| && PostsLink(history[i], u)
    decreases |history|
  {
    if |history| > 0 {
      var n := |history| - 1;
      var m := history[n];
      var init := history[..n];
      ScanLinkMembers(init, u);
      var added := if m.authorIsBot then [] else LinkWords(Words(m.content));
      assert Scan(history).links == Scan(init).links + added;
      assert u in added <==> PostsLink(m, u) by {
        if !m.authorIsBot {
          AbsorbedUrls(m, u);
        }
      }
      if exists i :: 0 <= i < |history| && PostsLink(history[i], u) {
        var i :| 0 <= i < |history| && PostsLink(history[i], u);
        if i < n {
          assert init[i] == history[i];
        }
      }
      if exists i :: 0 <= i < n && PostsLink(init[i], u) {
        var i :| 0 <= i < n && PostsLink(init[i], u);
        assert history[i] == init[i];
      }
    }
  }

  lemma {:induction false} ScanDatesContributor(history: seq<Message>, u: string)
    requires u in Scan(history).dates
    ensures exists i :: LastContributor(history, i, u) && Scan(history).dates[u] == history[i].createdAt
    decreases |history|
  {
    var n := |history| - 1;
    var m := history[n];
    var init := history[..n];
    var before := Scan(init);
    assert Scan(history) == Absorb(before, m);
    AbsorbDates(before, m, u);
    if Contributes(m, u) {
      assert LastContributor(history, n, u);
    } else {
      ScanDatesContributor(init, u);
      var i :| LastContributor(init, i, u) && before.dates[u] == init[i].createdAt;
      assert history[i] == init[i];
      forall j | i < j < |history| ensures !Contributes(history[j], u) {
        if j < n {
          assert history[j] == init[j];
        }
      }
      assert LastContributor(history, i, u);
    }
  }

  /**
   * Every dated URL carries the creation time of the last message in the
   * history that posted it (later assignments overwrite earlier ones).
   */
  lemma ScanDates(history: seq<Message>, u: string)
    requires u in Scan(history).dates
    ensures exists i :: LastPoster(history, i, u) && Scan(history).dates[u] == history[i].createdAt
  {
    ScanDatesContributor(history, u);
    var i :| LastContributor(history, i, u) && Scan(history).dates[u] == history[i].createdAt;
    ContributesIsPosts(history[i], u);
    forall j | i < j < |history| ensures !Posts(history[j], u) {
      ContributesIsPosts(history[j], u);
    }
    assert LastPoster(history, i, u);
  }

  /** Messages written by bots contribute nothing. */
  lemma {:induction false} ScanSkipsBots(history: seq<Message>)
    ensures Scan(history) == Scan(Humans(history))
    decreases |history|
  {
    if |history| > 0 {
      var n := |history| - 1;
      var m := history[n];
      ScanSkipsBots(history[..n]);
      var hs := Humans(history[..n]);
      if !m.authorIsBot {
        assert Humans(history) == hs + [m];
        assert (hs + [m])[..|hs|] == hs;
        assert Scan(hs + [m]) == Absorb(Scan(hs), m);
        assert Scan(history) == Absorb(Scan(history[..n]), m);
      } else {
        assert Humans(history) == hs + [] == hs;
        assert Scan(history) == Scan(history[..n]);
      }
    }
  }

  lemma {:induction false} StampOverUnion(a: map<string, Timestamp>, b: map<string, Timestamp>, urls: seq<string>, d: Timestamp)
    ensures Stamp(a + b, urls, d) == a + Stamp(b, urls, d)
    decreases |urls|
  {
    if |urls| > 0 {
      StampOverUnion(a, b, urls[..|urls| - 1], d);
    }
  }

  lemma AbsorbMerge(earlier: Catalog, later: Catalog, m: Message)
    ensures Absorb(Merge(earlier, later), m) == Merge(earlier, Absorb(later, m))
  {
    if !m.authorIsBot {
      var audio := AudioUrls(m.attachments);
      var links := LinkWords(Words(m.content));
      StampOverUnion(earlier.dates, later.dates, audio, m.createdAt);
      StampOverUnion(earlier.dates, Stamp(later.dates, audio, m.createdAt), links, m.createdAt);
    }
  }

  /**
   * Scanning is a left-to-right pass: the scan of `a + b` is the scan of `a`
   * followed by the scan of `b`, with `b`'s dates overriding.
   */
  lemma {:induction false} ScanAppend(a: seq<Message>, b: seq<Message>)
    ensures Scan(a + b) == Merge(Scan(a), Scan(b))
    decreases |b|
  {
    if |b| == 0 {
      assert a + b == a;
    } else {
      var n := |b| - 1;
      ScanAppend(a, b[..n]);
      assert (a + b)[..|a + b| - 1] == a + b[..n];
      AbsorbMerge(Scan(a), Scan(b[..n]), b[n]);
    }
  }

  lemma StampAppend(dates: map<string, Timestamp>, urls: seq<string>, u: string, d: Timestamp)
    ensures Stamp(dates, urls + [u], d) == Stamp(dates, urls, d)[u := d]
  {
    assert (urls + [u])[..|urls|] == urls;
  }

  lemma AudioUrlsStep(attachments: seq<Attachment>, k: nat)
    requires k < |attachments|
    ensures AudioUrls(attachments[..k + 1]) == AudioUrls(attachments[..k])
      + (if IsAudio(attachments[k].contentType) then [attachments[k].url] else [])
  {
    assert attachments[..k + 1][..k] == attachments[..k];
  }

  lemma LinkWordsStep(words: seq<string>, k: nat)
    requires k < |words|
    ensures LinkWords(words[..k + 1]) == LinkWords(words[..k]) + (if IsLink(words[k]) then [words[k]] else [])
  {
    assert words[..k + 1][..k] == words[..k];
  }

  /** The attachment loop of `update_audio_files` for one message dated `date`. */
  method AddAudio(attachments: seq<Attachment>, date: Timestamp, audio0: seq<string>, dates0: map<string, Timestamp>)
    returns (audioFiles: seq<string>, dates: map<string, Timestamp>)
    ensures audioFiles == audio0 + AudioUrls(attachments)
    ensures dates == Stamp(dates0, AudioUrls(attachments), date)
  {
    audioFiles, dates := audio0, dates0;
    for k := 0 to |attachments|
      invariant audioFiles == audio0 + AudioUrls(attachments[..k])
      invariant dates == Stamp(dates0, AudioUrls(attachments[..k]), date)
    {
      var attachment := attachments[k];
      ghost var found := AudioUrls(attachments[..k]);
      AudioUrlsStep(attachments, k);
      if IsAudio(attachment.contentType) {
        StampAppend(dates0, found, attachment.url, date);
        audioFiles := audioFiles + [attachment.url];
        dates := dates[attachment.url := date];
      } else {
        assert found + [] == found;
      }
    }
    assert attachments[..|attachments|] == attachments;
  }

  /** The word loop of `update_audio_files` for one message dated `date`. */
  method AddLinks(words: seq<string>, date: Timestamp, links0: seq<string>, dates0: map<string, Timestamp>)
    returns (links: seq<string>, dates: map<string, Timestamp>)
    ensures links == links0 + LinkWords(words)
    ensures dates == Stamp(dates0, LinkWords(words), date)
  {
    links, dates := links0, dates0;
    for k := 0 to |words|
      invariant links == links0 + LinkWords(words[..k])
      invariant dates == Stamp(dates0, LinkWords(words[..k]), date)
    {
      var word := words[k];
      ghost var found := LinkWords(words[..k]);
      LinkWordsStep(words, k);
      if IsLink(word) {
        StampAppend(dates0, found, word, date);
        links := links + [word];
        dates := dates[word := date];
      } else {
        assert found + [] == found;
      }
    }
    assert words[..|words|] == words;
  }

  /**
   * The loop of `update_audio_files`: for each user message, its audio
   * attachments, then the hyperlink words of its text.
   */
  method ScanHistory(history: seq<Message>) returns (audioFiles: seq<string>, links: seq<string>, dates: map<string, Timestamp>)
    ensures Catalog(audioFiles, links, dates) == Scan(history)
  {
    audioFiles, links, dates := [], [], map[];
    for i := 0 to |history|
      invariant Catalog(audioFiles, links, dates) == Scan(history[..i])
    {
      var message := history[i];
      assert history[..i + 1][..i] == history[..i];
      assert Scan(history[..i + 1]) == Absorb(Scan(history[..i]), message);
      if !message.authorIsBot {
        audioFiles, dates := AddAudio(message.attachments, message.createdAt, audioFiles, dates);
        links, dates := AddLinks(Words(message.content), message.createdAt, links, dates);
      }
    }
    assert history[..|history|] == history;
  }

  /** Whether the bot can reach the configured channel and read its history. */
  datatype Access = ChannelMissing | HistoryForbidden | HistoryReadable

  /**
   * One run of `update_audio_files`. `current` is the catalog before the run
   * (`None` if none was ever built); `failure`, when present, is the position
   * in the history at which fetching the next message raised.
   */
  function Refresh(current: Option<Catalog>, access: Access, history: seq<Message>, failure: Option<nat>): (next: Option<Catalog>)
    ensures access != HistoryReadable ==> next == current
    ensures access == HistoryReadable ==> next.Some? && next.value.Valid()
    ensures access == HistoryReadable ==> exists k :: 0 <= k <= |history| && next == Some(Scan(history[..k]))
  {
    if access != HistoryReadable then current
    else
      var k := if failure.Some? && failure.value < |history| then failure.value else |history|;
      Some(Scan(history[..k]))
  }

  /**
   * After a run that reads the history, however it ended, every dated URL
   * carries the creation time of the last message that posted it among the
   * messages fetched before the run stopped.
   */
  lemma RefreshDates(current: Option<Catalog>, history: seq<Message>, failure: Option<nat>, u: string)
    requires var next := Refresh(current, HistoryReadable, history, failure);
      u in next.value.dates
    ensures var next := Refresh(current, HistoryReadable, history, failure);
      exists k, i :: 0 <= k <= |history| && LastPoster(history[..k], i, u)
        && next.value.dates[u] == history[..k][i].createdAt
  {
    var next := Refresh(current, HistoryReadable, history, failure);
    var k :| 0 <= k <= |history| && next == Some(Scan(history[..k]));
    ScanDates(history[..k], u);
    var i :| LastPoster(history[..k], i, u) && Scan(history[..k]).dates[u] == history[..k][i].createdAt;
  }

  /**
   * A run that reads the history replaces the catalog: a complete run yields
   * the scan of the whole history, and an interrupted one yields prefixes of
   * its audio and link lists.
   */
  lemma RefreshKeepsPrefix(current: Option<Catalog>, history: seq<Message>, failure: Option<nat>)
    ensures var next := Refresh(current, HistoryReadable, history, failure);
      && next.Some?
      && next.value.audioFiles <= Scan(history).audioFiles
      && next.value.links <= Scan(history).links
      && (failure.None? ==> next.value == Scan(history))
  {
    var k := if failure.Some? && failure.value < |history| then failure.value else |history|;
    assert Refresh(current, HistoryReadable, history, failure) == Some(Scan(history[..k]));
    ScanPrefixLists(history, k);
    assert failure.None? ==> history[..k] == history;
  }

  /** Scanning a prefix of the history yields prefixes of the audio and link lists. */
  lemma ScanPrefixLists(history: seq<Message>, k: nat)
    requires k <= |history|
    ensures Scan(history[..k]).audioFiles <= Scan(history).audioFiles
    ensures Scan(history[..k]).links <= Scan(history).links
  {
    var fetched, unfetched := history[..k], history[k..];
    assert history == fetched + unfetched;
    ScanAppend(fetched, unfetched);
    var whole := Merge(Scan(fetched), Scan(unfetched));
    assert whole.audioFiles == Scan(fetched).audioFiles + Scan(unfetched).audioFiles;
    assert whole.links == Scan(fetched).links + Scan(unfetched).links;
  }

}
