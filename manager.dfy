/** The manager that hands out one integration object and wraps the
    operations that need a logged-in session. What the browser would report
    (driver start-up, the login polls, the outcome of each search step and of
    each document download) is passed in as data. */
module Manager {
  import opened Wrappers
  import opened SearchResults
  import opened Integration

  /** The manager's raised exceptions. */
  datatype Error = ConnectionFailed | NavigationFailed

  /** The paths kept from the downloads, in document order: a download that
      gave no path, or an empty one, is skipped. */
  function DownloadedPaths(outcomes: seq<Option<string>>): seq<string>
    decreases |outcomes|
  {
    if outcomes == [] then []
    else
      var last := outcomes[|outcomes| - 1];
      DownloadedPaths(outcomes[..|outcomes| - 1]) + (if last.Some? && last.value != "" then [last.value] else [])
  }

  /** At most one path per document. */
  lemma {:induction false} DownloadedPathsLength(outcomes: seq<Option<string>>)
    ensures |DownloadedPaths(outcomes)| <= |outcomes|
    decreases |outcomes|
  {
    if outcomes != [] {
      DownloadedPathsLength(outcomes[..|outcomes| - 1]);
    }
  }

  /** A path is returned exactly when it is non-empty and some download gave it. */
  lemma {:induction false} DownloadedPathsMembers(outcomes: seq<Option<string>>, p: string)
    ensures p in DownloadedPaths(outcomes) <==> p != "" && exists i :: 0 <= i < |outcomes| && outcomes[i] == Some(p)
    decreases |outcomes|
  {
    if outcomes != [] {
      var init := outcomes[..|outcomes| - 1];
      DownloadedPathsMembers(init, p);
      assert forall i :: 0 <= i < |init| ==> init[i] == outcomes[i];
    }
  }

  /** Downloading two batches one after the other returns the two results
      joined, so document order is kept. */
  lemma {:induction false} DownloadedPathsAppend(a: seq<Option<string>>, b: seq<Option<string>>)
    ensures DownloadedPaths(a + b) == DownloadedPaths(a) + DownloadedPaths(b)
    decreases |b|
  {
    if b == [] {
      assert a + b == a;
    } else {
      var init := b[..|b| - 1];
      assert (a + b)[..|a + b| - 1] == a + init;
      DownloadedPathsAppend(a, init);
    }
  }

  /** When every download gives a non-empty path, all of them are returned, in order. */
  lemma {:induction false} DownloadedPathsAllSucceed(outcomes: seq<Option<string>>)
    requires forall i :: 0 <= i < |outcomes| ==> outcomes[i].Some? && outcomes[i].value != ""
    ensures |DownloadedPaths(outcomes)| == |outcomes|
    ensures forall i :: 0 <= i < |outcomes| ==> DownloadedPaths(outcomes)[i] == outcomes[i].value
    decreases |outcomes|
  {
    if outcomes != [] {
      DownloadedPathsAllSucceed(outcomes[..|outcomes| - 1]);
    }
  }

  /** What the connection check returns: an already active session, or a
      driver that starts and a login among the polls. */
  ghost predicate Connects(wasActive: bool, initOk: bool, polls: seq<Option<nat>>) {
    wasActive || (initOk && LoginObserved(polls))
  }

  class UyapManager {
    var instance: UyapAdvancedIntegration?

    constructor ()
      ensures instance == null
    {
      instance := null;
    }

    /** Lazy construction: a new integration object only when none is held,
        otherwise the held one. */
    method GetInstance() returns (uyap: UyapAdvancedIntegration)
      modifies this
      ensures old(instance) == null ==> fresh(uyap) && !uyap.sessionActive && uyap.driverStarts == 0
      ensures old(instance) != null ==> uyap == old(instance)
      ensures instance == uyap
    {
      if instance == null {
        instance := new UyapAdvancedIntegration();
      }
      uyap := instance;
    }

    /** Makes sure a logged-in session exists. An active session is reported
        without starting the browser again; otherwise the browser is started
        and, if that works, the login is waited for. */
    method EnsureConnection(initOk: bool, polls: seq<Option<nat>>) returns (connected: bool)
      modifies this, instance
      ensures instance != null
      ensures old(instance) != null ==> instance == old(instance)
      ensures old(instance) == null ==> fresh(instance)
      ensures connected == instance.sessionActive
      ensures var wasActive := old(instance) != null && old(instance.sessionActive);
        connected == Connects(wasActive, initOk, polls)
      ensures var wasActive := old(instance) != null && old(instance.sessionActive);
        var before := if old(instance) == null then 0 else old(instance.driverStarts);
        instance.driverStarts == if wasActive then before else before + 1
    {
      var uyap := GetInstance();
      if !uyap.sessionActive {
        var started := uyap.InitializeDriver(initOk);
        if started {
          connected := uyap.WaitForLogin(polls);
          return;
        }
      }
      connected := uyap.sessionActive;
    }

    /** Searching with filters: a failed connection or a failed move to the
        search page is an error; a failed filter step or search click gives
        no files; otherwise the results table (None when it never appears) is
        parsed. */
    method SearchFilesWithFilters(initOk: bool, polls: seq<Option<nat>>, navigated: bool,
                                  filtersApplied: bool, searched: bool,
                                  table: Option<seq<Row>>, clock: nat -> nat)
      returns (r: Result<seq<UyapFile>, Error>)
      modifies this, instance
      ensures instance != null
      ensures old(instance) != null ==> instance == old(instance)
      ensures old(instance) == null ==> fresh(instance)
      ensures var wasActive := old(instance) != null && old(instance.sessionActive);
        instance.sessionActive == Connects(wasActive, initOk, polls)
      ensures var wasActive := old(instance) != null && old(instance.sessionActive);
        var before := if old(instance) == null then 0 else old(instance.driverStarts);
        instance.driverStarts == if wasActive then before else before + 1
      ensures var wasActive := old(instance) != null && old(instance.sessionActive);
        r == if !Connects(wasActive, initOk, polls) then Failure(ConnectionFailed)
             else if !navigated then Failure(NavigationFailed)
             else if !filtersApplied || !searched then Success([])
             else Success(if table.None? then [] else ParsedFrom(DataRows(table.value), 0, clock))
    {
      var connected := EnsureConnection(initOk, polls);
      if !connected {
        return Failure(ConnectionFailed);
      }
      var uyap := GetInstance();
      if !navigated {
        return Failure(NavigationFailed);
      }
      if !filtersApplied || !searched {
        return Success([]);
      }
      var files := ParseSearchResults(table, clock);
      r := Success(files);
    }

    /** Fetching a file's full details: a failed connection is an error;
        otherwise the details the browser reads (None when reading them
        failed) are returned. */
    method GetFileCompleteDetails<D>(fileId: string, esasNo: string,
                                     initOk: bool, polls: seq<Option<nat>>,
                                     details: Option<D>)
      returns (r: Result<Option<D>, Error>)
      modifies this, instance
      ensures instance != null
      ensures old(instance) != null ==> instance == old(instance)
      ensures old(instance) == null ==> fresh(instance)
      ensures var wasActive := old(instance) != null && old(instance.sessionActive);
        instance.sessionActive == Connects(wasActive, initOk, polls)
      ensures var wasActive := old(instance) != null && old(instance.sessionActive);
        var before := if old(instance) == null then 0 else old(instance.driverStarts);
        instance.driverStarts == if wasActive then before else before + 1
      ensures var wasActive := old(instance) != null && old(instance.sessionActive);
        r == if Connects(wasActive, initOk, polls) then Success(details) else Failure(ConnectionFailed)
    {
      var connected := EnsureConnection(initOk, polls);
      if !connected {
        return Failure(ConnectionFailed);
      }
      var uyap := GetInstance();
      r := Success(details);
    }

    /** Downloading a file's documents: a failed connection is an error;
        otherwise each document is downloaded in turn and the paths of the
        ones that arrived are returned. `outcomes[i]` is what downloading
        document i gives. */
    method DownloadFileDocuments(documents: seq<UyapDocument>, targetFolder: string,
                                 initOk: bool, polls: seq<Option<nat>>,
                                 outcomes: seq<Option<string>>)
      returns (r: Result<seq<string>, Error>)
      requires |outcomes| == |documents|
      modifies this, instance
      ensures instance != null
      ensures old(instance) != null ==> instance == old(instance)
      ensures old(instance) == null ==> fresh(instance)
      ensures var wasActive := old(instance) != null && old(instance.sessionActive);
        instance.sessionActive == Connects(wasActive, initOk, polls)
      ensures var wasActive := old(instance) != null && old(instance.sessionActive);
        var before := if old(instance) == null then 0 else old(instance.driverStarts);
        instance.driverStarts == if wasActive then before else before + 1
      ensures var wasActive := old(instance) != null && old(instance.sessionActive);
        r == if Connects(wasActive, initOk, polls) then Success(DownloadedPaths(outcomes))
             else Failure(ConnectionFailed)
    {
      var connected := EnsureConnection(initOk, polls);
      if !connected {
        return Failure(ConnectionFailed);
      }
      var uyap := GetInstance();
      var downloaded: seq<string> := [];
      for i := 0 to |documents|
        invariant downloaded == DownloadedPaths(outcomes[..i])
      {
        var path := outcomes[i];
        if path.Some? && path.value != "" {
          downloaded := downloaded + [path.value];
        }
        assert outcomes[..i + 1][..i] == outcomes[..i];
      }
      assert outcomes[..|documents|] == outcomes;
      r := Success(downloaded);
    }

    /** Releasing the integration object: afterwards none is held, so the
        next use builds a new one. */
    method Cleanup()
      modifies this
      ensures instance == null
    {
      if instance != null {
        instance := null;
      }
    }
  }
}
