/**
 * The run that shows the staleness and deletion bounds are exact, and that a version check alone
 * does not keep an older mapping out: a slow redirect reads version 1, the owner deletes the link,
 * version 2 reaches the cache, the key is evicted, and the fill of version 1 lands afterwards.
 */
module LateFill {
  import opened Prelude
  import opened Domain
  import opened CacheModel
  import opened CacheProtocol

  const CODE := "a"
  const OWNER := "o"
  const DELETE := ToStatus(Deleted)

  /** The moment of the slow source read and of the deletion. */
  function Instant(cfg: Config): Time { cfg.start + 1 }

  function First(cfg: Config): Link { Link(CODE, "d", OWNER, Active, cfg.start, cfg.start, None, 1) }

  function Second(cfg: Config): Link { Link(CODE, "d", OWNER, Deleted, cfg.start, Instant(cfg), None, 2) }

  function Projection(l: Link): RedirectMapping {
    RedirectMapping(l.code, l.destination, l.status, l.expiresAt, l.version)
  }

  function OldFill(cfg: Config): Put { Put(Projection(First(cfg)), cfg.activeTTL, Instant(cfg)) }

  function Refresh(cfg: Config): Put { Put(Projection(Second(cfg)), cfg.inactiveTTL, Instant(cfg)) }

  function LastMoment(cfg: Config): Time { Instant(cfg) + cfg.delay + cfg.activeTTL - 1 }

  function OldEntry(cfg: Config): Entry {
    Entry(Projection(First(cfg)), Instant(cfg) + cfg.delay + cfg.activeTTL)
  }

  function AfterSlowRead(cfg: Config): State {
    State(Instant(cfg), map[CODE := First(cfg)], map[], {OldFill(cfg)},
          map[0 := Resolved(CODE, Projection(First(cfg)), Instant(cfg))], map[], {})
  }

  function AfterDelete(cfg: Config): State {
    AfterSlowRead(cfg).(repo := map[CODE := Second(cfg)], mutators := map[0 := Committed(Second(cfg), Instant(cfg))])
  }

  function AfterRefresh(cfg: Config): State {
    AfterDelete(cfg).(
      mutators := map[0 := Finished],
      puts := {OldFill(cfg), Refresh(cfg)},
      cache := map[CODE := Entry(Projection(Second(cfg)), Instant(cfg) + Milliseconds(cfg.inactiveTTL) * MILLISECOND)])
  }

  function AfterLateFill(cfg: Config): State {
    AfterRefresh(cfg).(now := Instant(cfg) + cfg.delay, cache := map[CODE := OldEntry(cfg)])
  }

  function AfterRedirect(cfg: Config): State {
    AfterLateFill(cfg).(
      now := LastMoment(cfg),
      redirects := {Redirect(CODE, Projection(First(cfg)), LastMoment(cfg), LastMoment(cfg))})
  }

  lemma Join(cfg: Config, ss: seq<State>, es: seq<Event>, ts: seq<State>, fs: seq<Event>)
    requires Segment(cfg, ss, es) && Segment(cfg, ts, fs) && ss[|es|] == ts[0]
    ensures Segment(cfg, ss + ts[1..], es + fs)
  {
    var us, gs := ss + ts[1..], es + fs;
    forall i | 0 <= i < |gs| ensures Enabled(cfg, us[i], gs[i]) && us[i + 1] == Next(cfg, us[i], gs[i]) {
      if i < |es| {
        assert us[i] == ss[i] && us[i + 1] == ss[i + 1] && gs[i] == es[i];
      } else {
        var k := i - |es|;
        assert us[i] == ts[k] && us[i + 1] == ts[k + 1] && gs[i] == fs[k];
      }
    }
  }

  lemma FirstCreated(cfg: Config)
    requires cfg.Valid()
    ensures Enabled(cfg, Init(cfg), Create(CODE, "d", OWNER, cfg.start, None))
    ensures Next(cfg, Init(cfg), Create(CODE, "d", OWNER, cfg.start, None)) ==
      Init(cfg).(repo := map[CODE := First(cfg)])
  {
    assert Trimmed(CODE) && Trimmed(OWNER);
    assert NewLink(CODE, "d", OWNER, cfg.start, None) == Ok(First(cfg));
  }

  lemma SlowRead(cfg: Config) returns (ss: seq<State>, es: seq<Event>)
    requires cfg.Valid()
    ensures Segment(cfg, ss, es) && |es| == 5 && ss[0] == Init(cfg) && ss[5] == AfterSlowRead(cfg)
  {
    var l := First(cfg);
    assert Trimmed(CODE);
    FirstCreated(cfg);
    var create := Create(CODE, "d", OWNER, cfg.start, None);
    var s0 := Init(cfg);
    var s1 := s0.(repo := map[CODE := l]);
    var s2 := s1.(now := Instant(cfg));
    var s3 := s2.(readers := map[0 := Missed(CODE)]);
    var s4 := s2.(readers := map[0 := Sourced(CODE, Projection(l), s2.now)]);
    var s5 := AfterSlowRead(cfg);
    assert s1 == Next(cfg, s0, create);
    assert s3 == Next(cfg, s2, CacheMiss(0, CODE));
    assert s4 == Next(cfg, s3, SourceRead(0));
    assert s5 == Next(cfg, s4, IssueFill(0));
    ss := [s0, s1, s2, s3, s4, s5];
    es := [create, Tick(Instant(cfg)), CacheMiss(0, CODE), SourceRead(0), IssueFill(0)];
  }

  lemma Delete(cfg: Config) returns (ss: seq<State>, es: seq<Event>)
    requires cfg.Valid()
    ensures Segment(cfg, ss, es) && |es| == 3 && ss[0] == AfterSlowRead(cfg) && ss[3] == AfterDelete(cfg)
  {
    assert Trimmed(CODE) && Trimmed(OWNER);
    var s0 := AfterSlowRead(cfg);
    var find := FindForChange(0, CODE, OWNER, 1, DELETE);
    var s1 := s0.(mutators := map[0 := Holding(First(cfg), DELETE, 1)]);
    var s2 := s0.(mutators := map[0 := Changed(Second(cfg), DELETE, 1, s0.now)]);
    var s3 := AfterDelete(cfg);
    assert s1 == Next(cfg, s0, find);
    assert s2 == Next(cfg, s1, ChangeLocally(0));
    assert s3 == Next(cfg, s2, Commit(0));
    ss, es := [s0, s1, s2, s3], [find, ChangeLocally(0), Commit(0)];
  }

  lemma RefreshIssued(cfg: Config)
    requires cfg.Valid()
    ensures Enabled(cfg, AfterDelete(cfg), IssueRefresh(0))
    ensures Next(cfg, AfterDelete(cfg), IssueRefresh(0)) == AfterRefresh(cfg).(cache := map[])
  {
    assert Trimmed(CODE);
  }

  lemma RefreshLands(cfg: Config) returns (ss: seq<State>, es: seq<Event>)
    requires cfg.Valid() && MILLISECOND <= cfg.inactiveTTL
    ensures Segment(cfg, ss, es) && |es| == 2 && ss[0] == AfterDelete(cfg) && ss[2] == AfterRefresh(cfg)
  {
    RefreshIssued(cfg);
    var s0 := AfterDelete(cfg);
    var s1 := AfterRefresh(cfg).(cache := map[]);
    var s2 := AfterRefresh(cfg);
    assert s2 == Next(cfg, s1, Land(Refresh(cfg)));
    ss, es := [s0, s1, s2], [IssueRefresh(0), Land(Refresh(cfg))];
  }

  lemma EvictAndFill(cfg: Config) returns (ss: seq<State>, es: seq<Event>)
    requires cfg.Valid() && MILLISECOND <= cfg.activeTTL && cfg.activeTTL % MILLISECOND == 0
    requires cfg.delay + cfg.activeTTL < TWO_63 - 1
    ensures Segment(cfg, ss, es) && |es| == 3 && ss[0] == AfterRefresh(cfg) && ss[3] == AfterLateFill(cfg)
  {
    var s0 := AfterRefresh(cfg);
    var s1 := s0.(cache := map[]);
    var s2 := s1.(now := Instant(cfg) + cfg.delay);
    var s3 := AfterLateFill(cfg);
    assert s1 == Next(cfg, s0, Evict(CODE));
    assert s3 == Next(cfg, s2, Land(OldFill(cfg)));
    ss, es := [s0, s1, s2, s3], [Evict(CODE), Tick(s2.now), Land(OldFill(cfg))];
  }

  lemma LastRedirect(cfg: Config) returns (ss: seq<State>, es: seq<Event>)
    requires cfg.Valid() && cfg.delay + cfg.activeTTL < TWO_63 - 1
    ensures Segment(cfg, ss, es) && |es| == 3 && ss[0] == AfterLateFill(cfg) && ss[3] == AfterRedirect(cfg)
  {
    var s0 := AfterLateFill(cfg);
    var s1 := s0.(now := LastMoment(cfg));
    var s2 := s1.(readers := s1.readers[1 := Resolved(CODE, Projection(First(cfg)), s1.now)]);
    var s3 := AfterRedirect(cfg);
    assert s2 == Next(cfg, s1, CacheHit(1, CODE));
    assert s3.readers == s2.readers - {1};
    assert s3 == Next(cfg, s2, Respond(1));
    ss, es := [s0, s1, s2, s3], [Tick(s1.now), CacheHit(1, CODE), Respond(1)];
  }

  /**
   * For every configuration whose active TTL is a whole number of milliseconds there is a run in
   * which (state 10) the deleted version 2 is cached, (state 13) the older active version 1 has
   * replaced it, and (state 16) a redirect to the deleted link, obtained one nanosecond before the
   * bound delay + activeTTL after the deletion, has succeeded.
   */
  lemma OlderVersionReturns(cfg: Config) returns (ss: seq<State>, es: seq<Event>)
    requires cfg.Valid() && MILLISECOND <= cfg.inactiveTTL
    requires MILLISECOND <= cfg.activeTTL && cfg.activeTTL % MILLISECOND == 0
    requires cfg.delay + cfg.activeTTL < TWO_63 - 1
    ensures IsRun(cfg, ss, es) && |es| == 16
    ensures CODE in ss[8].repo && ss[8].repo[CODE].status == Deleted
    ensures CODE in ss[10].cache && ss[10].cache[CODE].mapping.version == 2
    ensures CODE in ss[13].cache && ss[13].cache[CODE].mapping.version == 1
    ensures exists r :: r in ss[16].redirects && r.code == CODE && r.gotAt == ss[8].now + cfg.delay + cfg.activeTTL - 1
  {
    var s1, e1 := SlowRead(cfg);
    var s2, e2 := Delete(cfg);
    Join(cfg, s1, e1, s2, e2);
    var s3, e3 := RefreshLands(cfg);
    Join(cfg, s1 + s2[1..], e1 + e2, s3, e3);
    var s4, e4 := EvictAndFill(cfg);
    Join(cfg, s1 + s2[1..] + s3[1..], e1 + e2 + e3, s4, e4);
    var s5, e5 := LastRedirect(cfg);
    Join(cfg, s1 + s2[1..] + s3[1..] + s4[1..], e1 + e2 + e3 + e4, s5, e5);
    ss, es := s1 + s2[1..] + s3[1..] + s4[1..] + s5[1..], e1 + e2 + e3 + e4 + e5;
    assert ss[8] == AfterDelete(cfg) && ss[10] == AfterRefresh(cfg) && ss[13] == AfterLateFill(cfg);
    assert ss[16] == AfterRedirect(cfg);
    assert Redirect(CODE, Projection(First(cfg)), LastMoment(cfg), LastMoment(cfg)) in ss[16].redirects;
  }
}
