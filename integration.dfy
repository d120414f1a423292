/** The portal integration object: its session flag, the login check and the
    wait for it, the download-completion test and the wait for it, and the
    text clean-up applied to an expense amount. The browser is not modelled:
    what it would report is passed in as data (whether the driver started,
    the number of menu items each login check finds, the listings of the
    downloads directory at each poll). */
module Integration {
  import opened Wrappers
  import opened Strings

  /** A document listed on a case file's documents tab. */
  datatype UyapDocument = UyapDocument(
    name: string,
    date: string,
    size: string,
    docType: string,
    url: string,
    downloadUrl: string)

  /** More menu items than this means a user is logged in. */
  const MenuThreshold: nat := 3

  /** The suffix the browser gives a file while it is still being downloaded. */
  const PartialSuffix: string := ".crdownload"

  /** The login heuristic on one reading of the menu: None stands for the
      wait for menu items timing out. */
  predicate LoggedIn(menuItems: Option<nat>) {
    menuItems.Some? && menuItems.value > MenuThreshold
  }

  /** Four or more menu items count as a login; a timed-out wait never does. */
  lemma LoggedInThreshold(menuItems: Option<nat>)
    ensures LoggedIn(menuItems) <==> menuItems.Some? && menuItems.value >= 4
    ensures !LoggedIn(None)
  {
  }

  /** Some login check among the polls made before the deadline succeeds. */
  ghost predicate LoginObserved(polls: seq<Option<nat>>) {
    exists i :: 0 <= i < |polls| && LoggedIn(polls[i])
  }

  /** A download is complete when the target name is in the downloads
      directory and its partial-download twin is not. */
  predicate DownloadComplete(dir: set<string>, filename: string) {
    filename in dir && filename + PartialSuffix !in dir
  }

  /** While the partial file is present the download is not complete; once
      the browser renames it to the target name, it is. */
  lemma DownloadCompleteAfterRename(dir: set<string>, filename: string)
    requires filename + PartialSuffix in dir
    ensures !DownloadComplete(dir, filename)
    ensures DownloadComplete(dir - {filename + PartialSuffix} + {filename}, filename)
  {
    assert |filename + PartialSuffix| != |filename|;
  }

  /** Some listing of the directory taken before the deadline shows the
      download complete. */
  ghost predicate DownloadObserved(snapshots: seq<set<string>>, filename: string) {
    exists i :: 0 <= i < |snapshots| && DownloadComplete(snapshots[i], filename)
  }

  /** The wait for a download: looks at one listing of the downloads
      directory per poll, in order, and reports success at the first listing
      that shows the download complete; running out of listings is the
      timeout. */
  method WaitForDownload(filename: string, snapshots: seq<set<string>>) returns (done: bool, polled: nat)
    ensures done <==> DownloadObserved(snapshots, filename)
    ensures polled <= |snapshots|
    ensures done ==> 0 < polled && DownloadComplete(snapshots[polled - 1], filename)
    ensures forall j :: 0 <= j < polled - 1 ==> !DownloadComplete(snapshots[j], filename)
    ensures !done ==> polled == |snapshots|
  {
    polled := 0;
    while polled < |snapshots|
      invariant polled <= |snapshots|
      invariant forall j :: 0 <= j < polled ==> !DownloadComplete(snapshots[j], filename)
    {
      var dir := snapshots[polled];
      polled := polled + 1;
      if filename in dir && filename + PartialSuffix !in dir {
        return true, polled;
      }
    }
    done := false;
  }

  /** The text step of reading an expense amount: trimmed, decimal comma
      turned into a point, lira sign deleted. */
  function AmountText(cell: string): (r: string)
    ensures ',' !in r && '₺' !in r
    ensures multiset(r) == multiset(Replace(Strip(cell), ',', '.'))['₺' := 0]
    ensures '₺' !in Strip(cell) ==> r == Replace(Strip(cell), ',', '.')
    ensures |r| <= |Strip(cell)|
  {
    var u := Replace(Strip(cell), ',', '.');
    assert forall i :: 0 <= i < |u| ==> u[i] != ',';
    assert multiset(u)[','] == 0;
    var r := Remove(u, '₺');
    assert multiset(r)[','] == 0 && multiset(r)['₺'] == 0;
    r
  }

  /** For a cell with no whitespace at either end, split anywhere, the amount
      text is each part with its commas turned into points and its lira signs
      deleted, the parts kept in order. */
  lemma AmountTextSplit(a: string, b: string)
    requires Strip(a + b) == a + b
    ensures AmountText(a + b) == Remove(Replace(a, ',', '.'), '₺') + Remove(Replace(b, ',', '.'), '₺')
  {
    ReplaceAppend(a, b, ',', '.');
    RemoveAppend(Replace(a, ',', '.'), Replace(b, ',', '.'), '₺');
  }

  /** An amount written with the lira sign right before the number reads as
      the number with its commas turned into points. */
  lemma AmountTextLeadingSign(num: string)
    requires num != [] && !IsSpace(num[|num| - 1]) && '₺' !in num
    ensures AmountText(['₺'] + num) == Replace(num, ',', '.')
  {
    var sign: string := ['₺'];
    StripUnchanged(sign + num);
    AmountTextSplit(sign, num);
    ReplaceAbsent(num, ',', '.', '₺');
    assert Remove(Replace(sign, ',', '.'), '₺') == [] by {
      assert sign[1..] == [];
    }
  }

  /** An amount written with the lira sign right after the number reads as
      the number with its commas turned into points. */
  lemma AmountTextTrailingSign(num: string)
    requires num != [] && !IsSpace(num[0]) && '₺' !in num
    ensures AmountText(num + ['₺']) == Replace(num, ',', '.')
  {
    var sign: string := ['₺'];
    StripUnchanged(num + sign);
    AmountTextSplit(num, sign);
    ReplaceAbsent(num, ',', '.', '₺');
    assert Remove(Replace(sign, ',', '.'), '₺') == [] by {
      assert sign[1..] == [];
    }
  }

  /** One integration object: the flag saying a logged-in session was seen.
      The number of driver start-ups is kept as a ghost counter so that a
      caller's promise not to restart the browser can be stated. */
  class UyapAdvancedIntegration {
    var sessionActive: bool
    ghost var driverStarts: nat

    constructor ()
      ensures !sessionActive && driverStarts == 0
    {
      sessionActive := false;
      driverStarts := 0;
    }

    /** Starting the browser and opening the portal; `started` is what the
        browser reports. */
    method InitializeDriver(started: bool) returns (ok: bool)
      modifies this
      ensures ok == started
      ensures driverStarts == old(driverStarts) + 1
      ensures sessionActive == old(sessionActive)
    {
      driverStarts := driverStarts + 1;
      ok := started;
    }

    /** One login check: true exactly when more than three menu items are
        found. A true result sets the session flag; a false one leaves it. */
    method CheckLoginStatus(menuItems: Option<nat>) returns (loggedIn: bool)
      modifies this
      ensures loggedIn == LoggedIn(menuItems)
      ensures sessionActive == (old(sessionActive) || loggedIn)
      ensures driverStarts == old(driverStarts)
    {
      loggedIn := false;
      if menuItems.Some? {
        if menuItems.value > MenuThreshold {
          sessionActive := true;
          loggedIn := true;
        }
      }
    }

    /** The wait for the user to log in: one login check per poll until one
        succeeds or the polls (the time before the deadline) run out. */
    method WaitForLogin(polls: seq<Option<nat>>) returns (loggedIn: bool)
      modifies this
      ensures loggedIn == LoginObserved(polls)
      ensures sessionActive == (old(sessionActive) || loggedIn)
      ensures driverStarts == old(driverStarts)
    {
      var i := 0;
      while i < |polls|
        invariant i <= |polls|
        invariant forall j :: 0 <= j < i ==> !LoggedIn(polls[j])
        invariant sessionActive == old(sessionActive) && driverStarts == old(driverStarts)
      {
        loggedIn := CheckLoginStatus(polls[i]);
        if loggedIn {
          return;
        }
        i := i + 1;
      }
      loggedIn := false;
    }
  }
}
