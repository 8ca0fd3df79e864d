/** The credential files under the application data directory, one user directory each:
    `load_credentials` picks the most recently modified credentials, `list_saved_users` lists
    all readable ones sorted by display name. What the directory scan finds (directory or
    not, the credentials file, its modification time, whether it reads and parses) is input. */
module CredentialsStore {
  import opened Wrappers
  import opened Auth

  /** `<user_id>/<user_id>.json` when it exists: its modification time when the metadata gives
      one, and its contents when the file reads and parses. */
  datatype CredentialsFile = CredentialsFile(modified: Option<int>, contents: Option<SavedCredentials>)

  /** One entry of the application data directory. */
  datatype DirEntry = DirEntry(isDir: bool, credentialsFile: Option<CredentialsFile>)

  /** An entry `load_credentials` can take: a directory whose credentials file has a
      modification time and parses. */
  predicate Loadable(e: DirEntry) {
    && e.isDir && e.credentialsFile.Some?
    && e.credentialsFile.value.modified.Some? && e.credentialsFile.value.contents.Some?
  }

  function ModTime(e: DirEntry): int
    requires Loadable(e)
  {
    e.credentialsFile.value.modified.value
  }

  function Contents(e: DirEntry): SavedCredentials
    requires e.credentialsFile.Some? && e.credentialsFile.value.contents.Some?
  {
    e.credentialsFile.value.contents.value
  }

  /** Entry `i` is the one chosen: loadable, modified after the epoch, no loadable entry is
      newer, and every earlier loadable entry is strictly older (ties go to the first). */
  ghost predicate IsLatest(entries: seq<DirEntry>, i: int) {
    && 0 <= i < |entries| && Loadable(entries[i]) && ModTime(entries[i]) > 0
    && (forall j :: 0 <= j < |entries| && Loadable(entries[j]) ==> ModTime(entries[j]) <= ModTime(entries[i]))
    && (forall j :: 0 <= j < i && Loadable(entries[j]) ==> ModTime(entries[j]) < ModTime(entries[i]))
  }

  /** At most one entry is the latest. */
  lemma LatestIsUnique(entries: seq<DirEntry>, i: int, k: int)
    requires IsLatest(entries, i) && IsLatest(entries, k)
    ensures i == k
  {
  }

  /** `load_credentials`: scan the entries in order, keeping the credentials of the entry with
      the strictly greatest modification time seen so far, starting from the epoch. */
  method LoadCredentials(appDataDirExists: bool, entries: seq<DirEntry>) returns (latest: Option<SavedCredentials>)
    ensures latest.None? <==>
              (!appDataDirExists || forall j :: 0 <= j < |entries| && Loadable(entries[j]) ==> ModTime(entries[j]) <= 0)
    ensures latest.Some? ==> appDataDirExists && exists i :: IsLatest(entries, i) && latest.value == Contents(entries[i])
  {
    if !appDataDirExists {
      return None;
    }
    latest := None;
    var latestTime := 0;
    ghost var chosen := -1;
    var n := 0;
    while n < |entries|
      invariant 0 <= n <= |entries|
      invariant latest.None? ==> chosen == -1 && latestTime == 0
      invariant forall j :: 0 <= j < n && Loadable(entries[j]) ==> ModTime(entries[j]) <= latestTime
      invariant latest.Some? ==>
                  && 0 <= chosen < n && Loadable(entries[chosen])
                  && latest.value == Contents(entries[chosen])
                  && latestTime == ModTime(entries[chosen]) > 0
                  && forall j :: 0 <= j < chosen && Loadable(entries[j]) ==> ModTime(entries[j]) < latestTime
    {
      var e := entries[n];
      if e.isDir && e.credentialsFile.Some? {
        var file := e.credentialsFile.value;
        if file.modified.Some? {
          var modified := file.modified.value;
          if modified > latestTime {
            if file.contents.Some? {
              latest := Some(file.contents.value);
              latestTime := modified;
              chosen := n;
            }
          }
        }
      }
      n := n + 1;
    }
    if latest.Some? {
      assert IsLatest(entries, chosen);
    }
  }

  // ---- list_saved_users ----

  /** An entry `list_saved_users` takes: a directory whose credentials file parses. */
  predicate Listable(e: DirEntry) {
    e.isDir && e.credentialsFile.Some? && e.credentialsFile.value.contents.Some?
  }

  /** The credentials pushed by the scan, in directory order. */
  function Collected(entries: seq<DirEntry>): (r: seq<SavedCredentials>)
    ensures |r| <= |entries|
    ensures forall c :: c in r ==> exists e :: e in entries && Listable(e) && Contents(e) == c
    ensures forall i :: 0 <= i < |entries| && Listable(entries[i]) ==> Contents(entries[i]) in r
  {
    if |entries| == 0 then []
    else
      var init, last := entries[..|entries| - 1], entries[|entries| - 1];
      assert forall i :: 0 <= i < |init| ==> init[i] == entries[i];
      Collected(init) + (if Listable(last) then [Contents(last)] else [])
  }

  /** The scan order: the users pushed for two runs of entries are those of the first run,
      then those of the second. */
  lemma {:induction false} CollectedAppend(s: seq<DirEntry>, t: seq<DirEntry>)
    ensures Collected(s + t) == Collected(s) + Collected(t)
    decreases |t|
  {
    if |t| == 0 {
      assert s + t == s;
    } else {
      var u := t[..|t| - 1];
      assert (s + t)[..|s + t| - 1] == s + u;
      assert (s + t)[|s + t| - 1] == t[|t| - 1];
      CollectedAppend(s, u);
    }
  }

  /** The name a user is listed under: the username, or the user id when there is none. */
  function DisplayName(c: SavedCredentials): string {
    if c.username.Some? then c.username.value else c.userId
  }

  /** `str::cmp` as "less or equal": lexicographic by code point, which for UTF-8 is the same
      as comparing the bytes. */
  predicate StrLe(a: string, b: string) {
    if |a| == 0 then true
    else if |b| == 0 then false
    else if a[0] != b[0] then a[0] < b[0]
    else StrLe(a[1..], b[1..])
  }

  /** A prefix sorts first, and otherwise the first differing character decides. */
  lemma {:induction false} StrLePrefixAndFirstDifference(a: string, b: string, i: nat)
    requires i <= |a| && i <= |b| && a[..i] == b[..i]
    ensures i == |a| ==> StrLe(a, b)
    ensures i < |a| && i < |b| && a[i] != b[i] ==> (StrLe(a, b) <==> a[i] < b[i])
  {
    if i > 0 {
      assert a[0] == a[..i][0] == b[..i][0] == b[0];
      assert a[1..][..i - 1] == a[..i][1..] == b[..i][1..] == b[1..][..i - 1];
      StrLePrefixAndFirstDifference(a[1..], b[1..], i - 1);
      assert i < |a| ==> a[1..][i - 1] == a[i];
      assert i < |b| ==> b[1..][i - 1] == b[i];
    }
  }

  lemma {:induction false} StrLeTotal(a: string, b: string)
    ensures StrLe(a, b) || StrLe(b, a)
  {
    if |a| > 0 && |b| > 0 && a[0] == b[0] { StrLeTotal(a[1..], b[1..]); }
  }

  lemma {:induction false} StrLeTransitive(a: string, b: string, c: string)
    requires StrLe(a, b) && StrLe(b, c)
    ensures StrLe(a, c)
  {
    if |a| > 0 && |b| > 0 && |c| > 0 && a[0] == b[0] == c[0] {
      StrLeTransitive(a[1..], b[1..], c[1..]);
    }
  }

  lemma {:induction false} StrLeAntisymmetric(a: string, b: string)
    requires StrLe(a, b) && StrLe(b, a)
    ensures a == b
  {
    if |a| > 0 && |b| > 0 {
      StrLeAntisymmetric(a[1..], b[1..]);
      assert a == [a[0]] + a[1..] && b == [b[0]] + b[1..];
    }
  }

  ghost predicate SortedByName(s: seq<SavedCredentials>) {
    forall i, j :: 0 <= i < j < |s| ==> StrLe(DisplayName(s[i]), DisplayName(s[j]))
  }

  /** Insert `x` into a sorted list after every entry whose name is not greater than its own. */
  function Insert(x: SavedCredentials, s: seq<SavedCredentials>): (r: seq<SavedCredentials>)
    ensures multiset(r) == multiset(s) + multiset{x}
  {
    if |s| == 0 then [x]
    else if !StrLe(DisplayName(s[0]), DisplayName(x)) then [x] + s
    else
      assert s == [s[0]] + s[1..];
      [s[0]] + Insert(x, s[1..])
  }

  /** The sort of `list_saved_users`: a stable sort by display name. */
  function SortByName(xs: seq<SavedCredentials>): (r: seq<SavedCredentials>)
    ensures multiset(r) == multiset(xs)
  {
    if |xs| == 0 then []
    else
      assert xs == xs[..|xs| - 1] + [xs[|xs| - 1]];
      Insert(xs[|xs| - 1], SortByName(xs[..|xs| - 1]))
  }

  lemma {:induction false} InsertKeepsSorted(x: SavedCredentials, s: seq<SavedCredentials>)
    requires SortedByName(s)
    ensures SortedByName(Insert(x, s))
  {
    if |s| > 0 {
      if !StrLe(DisplayName(s[0]), DisplayName(x)) {
        StrLeTotal(DisplayName(s[0]), DisplayName(x));
        forall j | 0 <= j < |s| ensures StrLe(DisplayName(x), DisplayName(s[j])) {
          if j > 0 { StrLeTransitive(DisplayName(x), DisplayName(s[0]), DisplayName(s[j])); }
        }
      } else {
        var rest := Insert(x, s[1..]);
        InsertKeepsSorted(x, s[1..]);
        forall j | 0 <= j < |rest| ensures StrLe(DisplayName(s[0]), DisplayName(rest[j])) {
          assert rest[j] in multiset(rest);
          if rest[j] != x {
            assert rest[j] in multiset(s[1..]);
            var k :| 0 <= k < |s[1..]| && s[1..][k] == rest[j];
            assert s[k + 1] == rest[j];
          }
        }
      }
    }
  }

  /** The sort orders by display name and keeps every entry with its multiplicity. */
  lemma {:induction false} SortByNameSortsAndPermutes(xs: seq<SavedCredentials>)
    ensures SortedByName(SortByName(xs))
    ensures multiset(SortByName(xs)) == multiset(xs)
  {
    if |xs| > 0 {
      var init, x := xs[..|xs| - 1], xs[|xs| - 1];
      SortByNameSortsAndPermutes(init);
      InsertKeepsSorted(x, SortByName(init));
      assert SortByName(xs) == Insert(x, SortByName(init));
    }
  }

  /** The entries listed under name `k`, in order. */
  function WithName(s: seq<SavedCredentials>, k: string): seq<SavedCredentials>
  {
    if |s| == 0 then [] else (if DisplayName(s[0]) == k then [s[0]] else []) + WithName(s[1..], k)
  }

  lemma {:induction false} WithNameAppend(s: seq<SavedCredentials>, t: seq<SavedCredentials>, k: string)
    ensures WithName(s + t, k) == WithName(s, k) + WithName(t, k)
  {
    if |s| > 0 {
      WithNameAppend(s[1..], t, k);
      assert (s + t)[1..] == s[1..] + t;
    } else {
      assert s + t == t;
    }
  }

  lemma {:induction false} WithNameNone(s: seq<SavedCredentials>, k: string)
    requires forall i :: 0 <= i < |s| ==> DisplayName(s[i]) != k
    ensures WithName(s, k) == []
  {
    if |s| > 0 { WithNameNone(s[1..], k); }
  }

  lemma {:induction false} InsertIsStable(x: SavedCredentials, s: seq<SavedCredentials>, k: string)
    requires SortedByName(s)
    ensures WithName(Insert(x, s), k) == WithName(s, k) + (if DisplayName(x) == k then [x] else [])
  {
    if |s| > 0 {
      if !StrLe(DisplayName(s[0]), DisplayName(x)) {
        if DisplayName(x) == k {
          StrLeTotal(k, k);
          forall i | 0 <= i < |s| ensures DisplayName(s[i]) != k {
          }
          WithNameNone(s, k);
        }
        WithNameAppend([x], s, k);
      } else {
        InsertIsStable(x, s[1..], k);
        WithNameAppend([s[0]], Insert(x, s[1..]), k);
        WithNameAppend([s[0]], s[1..], k);
        assert [s[0]] + s[1..] == s;
      }
    }
  }

  /** Stability: the entries listed under any one name keep their original order. */
  lemma {:induction false} SortByNameIsStable(xs: seq<SavedCredentials>, k: string)
    ensures WithName(SortByName(xs), k) == WithName(xs, k)
  {
    if |xs| > 0 {
      var init, x := xs[..|xs| - 1], xs[|xs| - 1];
      var sortedInit := SortByName(init);
      var tail := if DisplayName(x) == k then [x] else [];
      assert SortByName(xs) == Insert(x, sortedInit);
      assert WithName(Insert(x, sortedInit), k) == WithName(sortedInit, k) + tail by {
        SortByNameSortsAndPermutes(init);
        InsertIsStable(x, sortedInit, k);
      }
      assert WithName(sortedInit, k) == WithName(init, k) by {
        SortByNameIsStable(init, k);
      }
      assert WithName(xs, k) == WithName(init, k) + tail by {
        assert xs == init + [x];
        WithNameAppend(init, [x], k);
        assert WithName([x], k) == tail by { assert [x][1..] == []; }
      }
    }
  }

  /** `list_saved_users`: push every readable user in directory order, then sort by name. */
  method ListSavedUsers(appDataDirExists: bool, entries: seq<DirEntry>) returns (users: seq<SavedCredentials>)
    ensures !appDataDirExists ==> users == []
    ensures appDataDirExists ==> users == SortByName(Collected(entries))
    ensures SortedByName(users)
    ensures appDataDirExists ==> multiset(users) == multiset(Collected(entries))
    ensures appDataDirExists ==> forall k :: WithName(users, k) == WithName(Collected(entries), k)
  {
    users := [];
    if !appDataDirExists {
      return;
    }
    var n := 0;
    while n < |entries|
      invariant 0 <= n <= |entries|
      invariant users == Collected(entries[..n])
    {
      var e := entries[n];
      if e.isDir && e.credentialsFile.Some? && e.credentialsFile.value.contents.Some? {
        users := users + [e.credentialsFile.value.contents.value];
      }
      assert entries[..n + 1][..n] == entries[..n];
      n := n + 1;
    }
    assert entries[..n] == entries;
    var collected := users;
    users := SortByName(collected);
    SortByNameSortsAndPermutes(collected);
    forall k { SortByNameIsStable(collected, k); }
  }
}
