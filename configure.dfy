/** The module-level `config` record of `src/configure.ts` and `configure`, which merges a
    partial configuration into it with `Object.assign` and returns a copy of what it held. */
module Configure {
  import opened Wrappers
  import Seqs
  import Dom

  const DefaultTimeout: int := 3000

  /** One own property of the partial configuration passed to `configure`, in the order the
      object lists its properties (`Object.assign` copies them in that order). */
  datatype Entry = TimeoutEntry(timeout: int) | PageEntry(page: Dom.Page)

  type Update = seq<Entry>

  predicate IsPageEntry(e: Entry) {
    e.PageEntry?
  }

  /** What the record holds. The source has no storage for `page`: it is a getter that reads
      the global page. `pageOverride` is the storage the intended `configure` writes; the
      configure as written leaves it None. */
  datatype State = State(timeout: int, pageOverride: Option<Dom.Page>)

  /** A plain copy `{ ...config }`: both properties as data, `page` read through the getter. */
  datatype Configuration = Configuration(timeout: int, page: Dom.Page)

  /** The error `Object.assign` throws when a property has a getter and no setter. */
  datatype TypeError = GetterOnly(property: string)

  function InitialState(): (s: State)
    ensures s.timeout == 3000 && s.pageOverride.None?
  {
    State(DefaultTimeout, None)
  }

  /** The `page` getter: the stored page if there is one, else the global page. */
  function PageOf(s: State, globalPage: Dom.Page): Dom.Page {
    s.pageOverride.GetOr(globalPage)
  }

  function SnapshotOf(s: State, globalPage: Dom.Page): Configuration {
    Configuration(s.timeout, PageOf(s, globalPage))
  }

  /** The snapshot passed back to `configure`: its properties in declaration order. */
  function AsUpdate(c: Configuration): (u: Update)
    ensures |u| == 2 && u[0] == TimeoutEntry(c.timeout) && u[1] == PageEntry(c.page)
  {
    [TimeoutEntry(c.timeout), PageEntry(c.page)]
  }

  // ----- Intended merge -----

  function Put(s: State, e: Entry): State {
    match e
    case TimeoutEntry(t) => s.(timeout := t)
    case PageEntry(p) => s.(pageOverride := Some(p))
  }

  /** `Object.assign(config, configuration)` on a record whose properties are all writable. */
  function Assign(s: State, u: Update): State
    decreases |u|
  {
    if |u| == 0 then s else Assign(Put(s, u[0]), u[1..])
  }

  lemma {:induction false} LastTimeoutWins(s: State, u: Update)
    ensures (forall j :: 0 <= j < |u| ==> !u[j].TimeoutEntry?) ==> Assign(s, u).timeout == s.timeout
    ensures forall i :: 0 <= i < |u| && u[i].TimeoutEntry? && (forall j :: i < j < |u| ==> !u[j].TimeoutEntry?) ==>
      Assign(s, u).timeout == u[i].timeout
    decreases |u|
  {
    if |u| > 0 {
      LastTimeoutWins(Put(s, u[0]), u[1..]);
      assert forall j :: 0 <= j < |u| - 1 ==> u[1..][j] == u[j + 1];
    }
  }

  lemma {:induction false} LastPageWins(s: State, u: Update)
    ensures (forall j :: 0 <= j < |u| ==> !u[j].PageEntry?) ==> Assign(s, u).pageOverride == s.pageOverride
    ensures forall i :: 0 <= i < |u| && u[i].PageEntry? && (forall j :: i < j < |u| ==> !u[j].PageEntry?) ==>
      Assign(s, u).pageOverride == Some(u[i].page)
    decreases |u|
  {
    if |u| > 0 {
      LastPageWins(Put(s, u[0]), u[1..]);
      assert forall j :: 0 <= j < |u| - 1 ==> u[1..][j] == u[j + 1];
    }
  }

  /** Supplied fields take the last value supplied; fields not supplied keep their value. */
  lemma LastWriteWins(s: State, u: Update)
    ensures (forall j :: 0 <= j < |u| ==> !u[j].TimeoutEntry?) ==> Assign(s, u).timeout == s.timeout
    ensures forall i :: 0 <= i < |u| && u[i].TimeoutEntry? && (forall j :: i < j < |u| ==> !u[j].TimeoutEntry?) ==>
      Assign(s, u).timeout == u[i].timeout
    ensures (forall j :: 0 <= j < |u| ==> !u[j].PageEntry?) ==> Assign(s, u).pageOverride == s.pageOverride
    ensures forall i :: 0 <= i < |u| && u[i].PageEntry? && (forall j :: i < j < |u| ==> !u[j].PageEntry?) ==>
      Assign(s, u).pageOverride == Some(u[i].page)
  {
    LastTimeoutWins(s, u);
    LastPageWins(s, u);
  }

  /** Successive calls compose: configuring with `u1` and then `u2` is configuring with both,
      the later values winning. */
  lemma {:induction false} AssignCompose(s: State, u1: Update, u2: Update)
    ensures Assign(Assign(s, u1), u2) == Assign(s, u1 + u2)
    decreases |u1|
  {
    if |u1| > 0 {
      assert (u1 + u2)[0] == u1[0];
      assert (u1 + u2)[1..] == u1[1..] + u2;
      AssignCompose(Put(s, u1[0]), u1[1..], u2);
    } else {
      assert u1 + u2 == u2;
    }
  }

  /** Passing the returned snapshot back restores the timeout and what `page` reads. */
  lemma RestoreSnapshot(s: State, u: Update, globalPage: Dom.Page)
    ensures var restored := Assign(Assign(s, u), AsUpdate(SnapshotOf(s, globalPage)));
      restored.timeout == s.timeout && PageOf(restored, globalPage) == PageOf(s, globalPage)
  {
    var c := SnapshotOf(s, globalPage);
    var t := Assign(s, u);
    var u2 := AsUpdate(c);
    var t1 := Put(t, u2[0]);
    assert Assign(t, u2) == Assign(t1, u2[1..]);
    assert u2[1..][0] == PageEntry(c.page) && u2[1..][1..] == [];
    assert Assign(t1, u2[1..]) == Put(t1, PageEntry(c.page));
  }

  // ----- Merge as written -----

  /** The outcome of `Object.assign`: the record afterwards, and the error it threw, if any. */
  datatype Assigned = Assigned(state: State, thrown: Option<TypeError>)

  /** `Object.assign(config, configuration)` on the source's record: `timeout` is a data
      property and is written; `page` has a getter and no setter, so assigning it throws a
      TypeError, after the properties before it were written and before those after it. */
  function AssignAsWritten(s: State, u: Update): Assigned
    decreases |u|
  {
    if |u| == 0 then Assigned(s, None)
    else
      match u[0]
      case TimeoutEntry(t) => AssignAsWritten(s.(timeout := t), u[1..])
      case PageEntry(_) => Assigned(s, Some(GetterOnly("page")))
  }

  /** As written, `configure` agrees with the intended merge up to the first `page`
      property, and throws there. */
  lemma {:induction false} AsWrittenStopsAtPage(s: State, u: Update)
    ensures var k := Seqs.FindIndex(u, IsPageEntry);
      AssignAsWritten(s, u) == if k == -1 then Assigned(Assign(s, u), None)
                               else Assigned(Assign(s, u[..k]), Some(GetterOnly("page")))
    decreases |u|
  {
    if |u| > 0 {
      AsWrittenStopsAtPage(Put(s, u[0]), u[1..]);
      var k := Seqs.FindIndex(u, IsPageEntry);
      if k > 0 {
        assert u[..k][1..] == u[1..][..k - 1];
      }
    }
  }

  /** As written, `configure` throws exactly when a `page` property is supplied. */
  lemma AsWrittenThrowsOnPage(s: State, u: Update)
    ensures AssignAsWritten(s, u).thrown.Some? <==> exists j :: 0 <= j < |u| && u[j].PageEntry?
    ensures AssignAsWritten(s, u).state.pageOverride == s.pageOverride
  {
    AsWrittenStopsAtPage(s, u);
    var k := Seqs.FindIndex(u, IsPageEntry);
    if k == -1 {
      LastWriteWins(s, u);
    } else {
      LastWriteWins(s, u[..k]);
    }
  }

  /** Passing the snapshot back, as written: the timeout is restored, then the call throws. */
  lemma AsWrittenRestoreThrows(s: State, c: Configuration)
    ensures AssignAsWritten(s, AsUpdate(c)) == Assigned(s.(timeout := c.timeout), Some(GetterOnly("page")))
  {
    var u := AsUpdate(c);
    assert u[1..][0] == PageEntry(c.page);
  }

  // ----- The record -----

  /** The `config` object. */
  class Config {
    var timeout: int
    var pageOverride: Option<Dom.Page>

    function Contents(): State
      reads this
    {
      State(timeout, pageOverride)
    }

    /** `get page()`. */
    function Page(globalPage: Dom.Page): Dom.Page
      reads this
    {
      PageOf(Contents(), globalPage)
    }

    constructor()
      ensures Contents() == InitialState()
    {
      timeout := DefaultTimeout;
      pageOverride := None;
    }

    /** `configure` as written: returns the previous configuration, or throws the TypeError of
        `Object.assign` when `page` is supplied; the writes before the throw stay. */
    method Configure(update: Update, globalPage: Dom.Page) returns (r: Result<Configuration, TypeError>)
      modifies this
      ensures Contents() == AssignAsWritten(old(Contents()), update).state
      ensures r == match AssignAsWritten(old(Contents()), update).thrown
                   case None => Success(SnapshotOf(old(Contents()), globalPage))
                   case Some(e) => Failure(e)
    {
      var previous := SnapshotOf(Contents(), globalPage);
      var outcome := AssignAsWritten(Contents(), update);
      timeout := outcome.state.timeout;
      pageOverride := outcome.state.pageOverride;
      r := match outcome.thrown
           case None => Success(previous)
           case Some(e) => Failure(e);
    }

    /** `configure` as intended: every supplied property is written, the previous
        configuration is returned. */
    method ConfigureIntended(update: Update, globalPage: Dom.Page) returns (previous: Configuration)
      modifies this
      ensures Contents() == Assign(old(Contents()), update)
      ensures previous == SnapshotOf(old(Contents()), globalPage)
    {
      previous := SnapshotOf(Contents(), globalPage);
      var next := Assign(Contents(), update);
      timeout := next.timeout;
      pageOverride := next.pageOverride;
    }
  }

  /** A caller that changes the configuration and then restores it from the snapshot. */
  method ConfigureAndRestore(config: Config, update: Update, globalPage: Dom.Page)
    modifies config
    ensures config.timeout == old(config.timeout)
    ensures config.Page(globalPage) == old(config.Page(globalPage))
  {
    var previous := config.ConfigureIntended(update, globalPage);
    var _ := config.ConfigureIntended(AsUpdate(previous), globalPage);
    RestoreSnapshot(old(config.Contents()), update, globalPage);
  }

  /** The same caller against `configure` as written: setting `page` throws, and so does
      restoring, because the snapshot carries `page`; the timeout is restored nonetheless. */
  method ConfigureAndRestoreAsWritten(config: Config, page: Dom.Page, globalPage: Dom.Page)
    returns (first: Result<Configuration, TypeError>, restore: Result<Configuration, TypeError>)
    modifies config
    ensures first == Failure(GetterOnly("page"))
    ensures restore == Failure(GetterOnly("page"))
    ensures config.Contents() == old(config.Contents())
  {
    first := config.Configure([PageEntry(page)], globalPage);
    var snapshot := SnapshotOf(config.Contents(), globalPage);
    AsWrittenRestoreThrows(config.Contents(), snapshot);
    restore := config.Configure(AsUpdate(snapshot), globalPage);
  }
}
