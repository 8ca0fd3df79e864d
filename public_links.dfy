/** The per-user list of public links (`link-<user_id>.json`): `create_public_link` appends the
    new entry, `delete_public_link` keeps every entry whose hash differs. Reading and writing
    the file are inputs and outputs: what the read gave, and whether the write succeeded. */
module PublicLinks {
  import opened Wrappers
  import opened Strings

  datatype PublicLinkEntry = PublicLinkEntry(
    remotePath: string,
    linkHash: string,
    createdAt: string,
    customTitle: Option<string>,
    customDescription: Option<string>)

  /** The entries whose hash differs from `hash`, in their original order. */
  function WithoutHash(links: seq<PublicLinkEntry>, hash: string): (r: seq<PublicLinkEntry>)
    ensures |r| <= |links|
    ensures forall i :: 0 <= i < |r| ==> r[i].linkHash != hash
  {
    if |links| == 0 then []
    else (if links[0].linkHash != hash then [links[0]] else []) + WithoutHash(links[1..], hash)
  }

  /** How many entries carry `hash`. */
  function CountHash(links: seq<PublicLinkEntry>, hash: string): nat
  {
    if |links| == 0 then 0 else (if links[0].linkHash == hash then 1 else 0) + CountHash(links[1..], hash)
  }

  /** Filtering distributes over concatenation: the kept entries stay in their order. */
  lemma {:induction false} WithoutHashAppend(s: seq<PublicLinkEntry>, t: seq<PublicLinkEntry>, hash: string)
    ensures WithoutHash(s + t, hash) == WithoutHash(s, hash) + WithoutHash(t, hash)
    ensures CountHash(s + t, hash) == CountHash(s, hash) + CountHash(t, hash)
  {
    if |s| > 0 {
      WithoutHashAppend(s[1..], t, hash);
      assert (s + t)[1..] == s[1..] + t;
    } else {
      assert s + t == t;
    }
  }

  /** Deleting removes exactly the entries with the hash: none of them remains, every other
      entry remains as often as before, and the count drops by the number of matches. */
  lemma {:induction false} WithoutHashRemovesExactly(links: seq<PublicLinkEntry>, hash: string)
    ensures forall e :: e in WithoutHash(links, hash) ==> e.linkHash != hash
    ensures forall e: PublicLinkEntry :: e.linkHash != hash ==> multiset(WithoutHash(links, hash))[e] == multiset(links)[e]
    ensures |WithoutHash(links, hash)| == |links| - CountHash(links, hash)
  {
    if |links| > 0 {
      WithoutHashRemovesExactly(links[1..], hash);
      assert links == [links[0]] + links[1..];
    }
  }

  /** Deleting twice is deleting once. */
  lemma {:induction false} WithoutHashIdempotent(links: seq<PublicLinkEntry>, hash: string)
    ensures WithoutHash(WithoutHash(links, hash), hash) == WithoutHash(links, hash)
  {
    if |links| > 0 {
      WithoutHashIdempotent(links[1..], hash);
      WithoutHashAppend(if links[0].linkHash != hash then [links[0]] else [], WithoutHash(links[1..], hash), hash);
    }
  }

  /** Deleting the hash of a link just created also removes that link, and nothing else. */
  lemma CreateThenDelete(links: seq<PublicLinkEntry>, entry: PublicLinkEntry)
    ensures WithoutHash(links + [entry], entry.linkHash) == WithoutHash(links, entry.linkHash)
  {
    WithoutHashAppend(links, [entry], entry.linkHash);
    assert WithoutHash([entry], entry.linkHash) == [] by { assert [entry][1..] == []; }
  }

  /** The `Vec<PublicLinkEntry>` a command reads, changes and writes back. */
  class LinkList {
    var entries: seq<PublicLinkEntry>

    constructor (entries: seq<PublicLinkEntry>)
      ensures this.entries == entries
    {
      this.entries := entries;
    }

    /** `links.push(entry)`. */
    method Push(entry: PublicLinkEntry)
      modifies this
      ensures entries == old(entries) + [entry]
    {
      entries := entries + [entry];
    }

    /** `links.retain(|l| l.link_hash != hash)`. */
    method Retain(hash: string)
      modifies this
      ensures entries == WithoutHash(old(entries), hash)
    {
      var kept := [];
      var i := 0;
      while i < |entries|
        invariant 0 <= i <= |entries| && entries == old(entries)
        invariant kept == WithoutHash(entries[..i], hash)
      {
        WithoutHashAppend(entries[..i], [entries[i]], hash);
        assert entries[..i + 1] == entries[..i] + [entries[i]];
        assert WithoutHash([entries[i]], hash) == (if entries[i].linkHash != hash then [entries[i]] else []) by {
          assert [entries[i]][1..] == [];
        }
        if entries[i].linkHash != hash {
          kept := kept + [entries[i]];
        }
        i := i + 1;
      }
      assert entries[..i] == entries;
      entries := kept;
    }
  }

  /** `create_public_link` after the server created the link: the list it writes is the stored
      links, or none when the file could not be read or parsed, with the new entry appended at
      the end. A failed write is only logged, so the command returns the entry whatever
      `writeResult` (what writing the file gave) is. */
  method CreatePublicLink(stored: Result<seq<PublicLinkEntry>, string>, entry: PublicLinkEntry,
                          writeResult: Result<(), string>)
    returns (written: seq<PublicLinkEntry>, r: Result<PublicLinkEntry, string>)
    ensures stored.Success? ==> written == stored.value + [entry]
    ensures stored.Failure? ==> written == [entry]
    ensures |written| >= 1 && written[|written| - 1] == entry
    ensures r == Success(entry)
  {
    var links := new LinkList(if stored.Success? then stored.value else []);
    links.Push(entry);
    written := links.entries;
    r := Success(entry);
  }

  datatype DeleteReport = DeleteReport(written: seq<PublicLinkEntry>, before: nat, after: nat, message: string)

  /** `delete_public_link` after the server accepted the deletion: a failed read is an error,
      the kept links are written back (a failed write is an error), and the message reports the
      count before and after. `writeResult` is what writing the file gave. */
  method DeletePublicLink(stored: Result<seq<PublicLinkEntry>, string>, hash: string, writeResult: Result<(), string>)
    returns (r: Result<DeleteReport, string>)
    ensures stored.Failure? ==> r == Failure(stored.error)
    ensures stored.Success? && writeResult.Failure? ==> r == Failure(writeResult.error)
    ensures stored.Success? && writeResult.Success? ==> r.Success?
    ensures r.Success? ==>
              && r.value.written == WithoutHash(stored.value, hash)
              && r.value.before == |stored.value|
              && r.value.after == r.value.before - CountHash(stored.value, hash)
              && r.value.message == "Deleted " + hash + " (" + Decimal(r.value.before) + " -> " + Decimal(r.value.after) + ")"
  {
    if stored.Failure? {
      return Failure(stored.error);
    }
    var links := new LinkList(stored.value);
    var before := |links.entries|;
    links.Retain(hash);
    if writeResult.Failure? {
      return Failure(writeResult.error);
    }
    WithoutHashRemovesExactly(stored.value, hash);
    var after := |links.entries|;
    r := Success(DeleteReport(links.entries, before, after,
                              "Deleted " + hash + " (" + Decimal(before) + " -> " + Decimal(after) + ")"));
  }
}
