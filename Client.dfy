/**
 * The registry of connected viewers (`server/src/client/mod.rs`): one
 * `ClientDetails` record per viewer session, kept in a vector with a counter
 * beside it, oldest first.
 *
 * `generate_id` (a random uuid prefix) is a parameter: the id of a new
 * session is handed in. The two `Instant` timestamps of a session are not
 * part of this model.
 */
module Client {
  import opened Wrappers
  import opened Text

  /** One viewer session; `key` identifies it in the registry. */
  datatype ClientDetails = ClientDetails(
    id: string,
    fps: nat,
    extraHeaders: bool,
    advanceHeaders: bool,
    dualFinalFrames: bool,
    zeroData: bool,
    key: string)

  /** All four per-session flags are off. */
  predicate FlagsOff(c: ClientDetails) {
    !c.extraHeaders && !c.advanceHeaders && !c.dualFinalFrames && !c.zeroData
  }

  /** The key under which a session with an optional key is filed: the key, or `"0"`. */
  function KeyOrDefault(key: Option<string>): string {
    key.UnwrapOr("0")
  }

  // ---------------------------------------------------------------------------
  // The key in a request line
  // ---------------------------------------------------------------------------

  const KEY_MARK: string := "?key="

  /**
   * `parse_key_from_header`: the text after the first `?key=` of the second
   * whitespace-separated token of the request line (`GET /stream?key=abc HTTP/1.1`),
   * up to the next `?key=` or the end of the token.
   */
  function ParseKeyFromHeader(header: string): (r: Option<string>)
    ensures r.Some? ==> NoWhitespace(r.value)
    ensures r.Some? ==> forall j :: !MatchAt(r.value, KEY_MARK, j)
  {
    var parts := SplitWhitespace(header);
    if |parts| < 2 then None
    else
      var url := Split(parts[1], KEY_MARK);
      if |url| < 2 then None
      else
        KeyPieceIsClean(parts[1]);
        Some(url[1])
  }

  /** The second `?key=` piece of a whitespace-free token is whitespace-free and holds no `?key=`. */
  lemma KeyPieceIsClean(t: string)
    requires NoWhitespace(t) && |Split(t, KEY_MARK)| >= 2
    ensures NoWhitespace(Split(t, KEY_MARK)[1])
    ensures forall j :: !MatchAt(Split(t, KEY_MARK)[1], KEY_MARK, j)
  {
    SecondPiece(t, KEY_MARK);
    var i := FindFrom(t, KEY_MARK, 0).value;
    var a := i + |KEY_MARK|;
    var next := FindFrom(t, KEY_MARK, a);
    var b := if next.Some? then next.value else |t|;
    var piece := t[a..b];
    assert Split(t, KEY_MARK)[1] == piece;
    NoMatchWithin(t, KEY_MARK, a, b);
    forall k | 0 <= k < |piece|
      ensures !IsWhitespace(piece[k])
    {
      assert piece[k] == t[a + k];
    }
  }

  /**
   * What `parse_key_from_header` finds, stated by searching: a key exists
   * exactly when the line has a second token and that token holds `?key=`,
   * and then it is the text from just after the first `?key=` up to the next
   * one or the end of the token.
   */
  lemma ParseKeyFromHeaderSpec(header: string)
    ensures var parts := SplitWhitespace(header);
      ParseKeyFromHeader(header).Some? <==>
        |parts| >= 2 && FindFrom(parts[1], KEY_MARK, 0).Some?
    ensures var parts := SplitWhitespace(header);
      ParseKeyFromHeader(header).Some? ==>
        var t := parts[1];
        var a := FindFrom(t, KEY_MARK, 0).value + |KEY_MARK|;
        var next := FindFrom(t, KEY_MARK, a);
        ParseKeyFromHeader(header).value == t[a..if next.Some? then next.value else |t|]
  {
    var parts := SplitWhitespace(header);
    if |parts| >= 2 {
      SecondPiece(parts[1], KEY_MARK);
    }
  }

  // ---------------------------------------------------------------------------
  // Sessions
  // ---------------------------------------------------------------------------

  /** `ClientDetails::new(key)`: fps 0, all flags off, the key or `"0"`. */
  function NewClient(key: Option<string>, id: string): (c: ClientDetails)
    ensures c.id == id && c.fps == 0 && FlagsOff(c)
    ensures key.None? ==> c.key == "0"
    ensures key.Some? ==> c.key == key.value
  {
    ClientDetails(id, 0, false, false, false, false, KeyOrDefault(key))
  }

  /** `ClientDetails::from_header(header)`: fps 30, all flags off, the key of the request line or `"0"`. */
  function FromHeader(header: string, id: string): (c: ClientDetails)
    ensures c.id == id && c.fps == 30 && FlagsOff(c)
    ensures ParseKeyFromHeader(header).None? ==> c.key == "0"
    ensures NoWhitespace(c.key)
  {
    ClientDetails(id, 30, false, false, false, false, KeyOrDefault(ParseKeyFromHeader(header)))
  }

  // ---------------------------------------------------------------------------
  // The registry as values
  // ---------------------------------------------------------------------------

  /**
   * The sessions after `add_client_from_header` files `c`, when the counter
   * equals the number of sessions: the oldest is dropped first if the
   * counter would exceed `max`.
   */
  function Admit(stats: seq<ClientDetails>, max: nat, c: ClientDetails): seq<ClientDetails>
    requires max >= 1
  {
    if |stats| + 1 > max then stats[1..] + [c] else stats + [c]
  }

  /** The sessions after removing the lowest-index one filed under `key`, if any. */
  function RemoveFirst(stats: seq<ClientDetails>, key: string): seq<ClientDetails> {
    if stats == [] then []
    else if stats[0].key == key then stats[1..]
    else [stats[0]] + RemoveFirst(stats[1..], key)
  }

  predicate HasKey(stats: seq<ClientDetails>, key: string) {
    exists i :: 0 <= i < |stats| && stats[i].key == key
  }

  /** Admitting keeps the registry within `max`, files `c` last, and keeps the survivors in order. */
  lemma {:induction false} AdmitBound(stats: seq<ClientDetails>, max: nat, c: ClientDetails)
    requires max >= 1 && |stats| <= max
    ensures var r := Admit(stats, max, c);
      1 <= |r| <= max && r[|r| - 1] == c
      && (|stats| < max ==> r[..|r| - 1] == stats)
      && (|stats| == max ==> r[..|r| - 1] == stats[1..])
  {
    var r := Admit(stats, max, c);
    if |stats| + 1 > max {
      assert r[..|r| - 1] == stats[1..];
    } else {
      assert r[..|r| - 1] == stats;
    }
  }

  /**
   * `remove_client` removes exactly the first session filed under `key`:
   * the sessions before it and after it stay, in order.
   */
  lemma {:induction false} RemoveFirstAt(stats: seq<ClientDetails>, key: string, k: nat)
    requires k < |stats| && stats[k].key == key
    requires forall j :: 0 <= j < k ==> stats[j].key != key
    ensures RemoveFirst(stats, key) == stats[..k] + stats[k + 1..]
  {
    if k > 0 {
      RemoveFirstAt(stats[1..], key, k - 1);
      assert stats[1..][..k - 1] == stats[1..k];
      assert stats[1..][k..] == stats[k + 1..];
      assert [stats[0]] + stats[1..k] == stats[..k];
    }
  }

  /** With no session filed under `key`, removal changes nothing. */
  lemma {:induction false} RemoveFirstAbsent(stats: seq<ClientDetails>, key: string)
    requires !HasKey(stats, key)
    ensures RemoveFirst(stats, key) == stats
  {
    if stats != [] {
      assert !HasKey(stats[1..], key) by {
        forall i | 0 <= i < |stats[1..]| ensures stats[1..][i].key != key {
          assert stats[1..][i] == stats[i + 1];
        }
      }
      RemoveFirstAbsent(stats[1..], key);
      assert [stats[0]] + stats[1..] == stats;
    }
  }

  /** Removal shortens the registry by one exactly when some session is filed under `key`. */
  lemma {:induction false} RemoveFirstLength(stats: seq<ClientDetails>, key: string)
    ensures |RemoveFirst(stats, key)| == if HasKey(stats, key) then |stats| - 1 else |stats|
  {
    if stats != [] {
      RemoveFirstLength(stats[1..], key);
      if stats[0].key != key {
        assert HasKey(stats, key) <==> HasKey(stats[1..], key) by {
          if HasKey(stats, key) {
            var i :| 0 <= i < |stats| && stats[i].key == key;
            assert stats[1..][i - 1] == stats[i];
          }
          if HasKey(stats[1..], key) {
            var i :| 0 <= i < |stats[1..]| && stats[1..][i].key == key;
            assert stats[i + 1] == stats[1..][i];
          }
        }
      } else {
        assert HasKey(stats, key) by { assert stats[0].key == key; }
      }
    }
  }

  /**
   * A session filed under a key nobody else uses is the one that removing
   * that key takes out again: removal undoes the addition.
   */
  lemma RemoveUndoesAdd(stats: seq<ClientDetails>, c: ClientDetails)
    requires !HasKey(stats, c.key)
    ensures RemoveFirst(stats + [c], c.key) == stats
  {
    var s := stats + [c];
    assert s[|stats|].key == c.key;
    RemoveFirstAt(s, c.key, |stats|);
    assert s[..|stats|] == stats;
  }

  /**
   * Filing the same key twice keeps both sessions (there is no
   * de-duplication), and removing that key takes out the older one.
   */
  lemma DuplicateKeysKept(c1: ClientDetails, c2: ClientDetails)
    requires c1.key == c2.key
    ensures Admit(Admit([], 5, c1), 5, c2) == [c1, c2]
    ensures RemoveFirst([c1, c2], c1.key) == [c2]
  {
  }

  /** With room for two, filing three sessions leaves the second and the third. */
  lemma EvictsOldest(a: ClientDetails, b: ClientDetails, c: ClientDetails)
    ensures Admit(Admit(Admit([], 2, a), 2, b), 2, c) == [b, c]
  {
    assert Admit([], 2, a) == [a];
    assert Admit([a], 2, b) == [a, b];
    assert [a, b][1..] == [b];
  }

  // ---------------------------------------------------------------------------
  // The registry object
  // ---------------------------------------------------------------------------

  /** `Clients`: the sessions, oldest first, and the counter kept beside them. */
  class Clients {
    var queued: nat
    var clients: nat
    var maxClients: nat
    var stats: seq<ClientDetails>

    /** The counter counts the sessions. */
    predicate Valid()
      reads this
    {
      clients == |stats|
    }

    /** No more sessions than `maxClients`. */
    predicate Bounded()
      reads this
    {
      |stats| <= maxClients
    }

    /** `Clients::new`. */
    constructor ()
      ensures Valid() && Bounded()
      ensures queued == 0 && clients == 0 && maxClients == 5 && stats == []
    {
      queued := 0;
      clients := 0;
      maxClients := 5;
      stats := [];
    }

    /** `add_client`: count and append a session, with no limit check. */
    method AddClient(key: Option<string>, id: string)
      requires Valid()
      modifies this
      ensures Valid()
      ensures stats == old(stats) + [NewClient(key, id)]
      ensures clients == old(clients) + 1
      ensures queued == old(queued) && maxClients == old(maxClients)
    {
      clients := clients + 1;
      stats := stats + [NewClient(key, id)];
    }

    /**
     * `add_client_from_header`: count the new session, drop the oldest when
     * the counter then exceeds `maxClients`, append the session and return
     * its id.
     */
    method AddClientFromHeader(header: string, id: string) returns (r: string)
      requires Valid() && maxClients >= 1
      modifies this
      ensures Valid()
      ensures queued == old(queued) && maxClients == old(maxClients)
      ensures stats == Admit(old(stats), maxClients, FromHeader(header, id))
      ensures old(Bounded()) ==> Bounded()
      ensures r == id && stats[|stats| - 1].id == r
    {
      clients := clients + 1;
      if clients > maxClients {
        stats := stats[1..];
        clients := clients - 1;
      }
      var client := FromHeader(header, id);
      r := client.id;
      stats := stats + [client];
      if old(Bounded()) {
        AdmitBound(old(stats), maxClients, client);
      }
    }

    /** `remove_client`: drop the lowest-index session filed under the key, or under `"0"`. */
    method RemoveClient(key: Option<string>)
      requires Valid()
      modifies this
      ensures Valid()
      ensures stats == RemoveFirst(old(stats), KeyOrDefault(key))
      ensures clients == if HasKey(old(stats), KeyOrDefault(key)) then old(clients) - 1 else old(clients)
      ensures queued == old(queued) && maxClients == old(maxClients)
    {
      var k := KeyOrDefault(key);
      var index := 0;
      while index < |stats|
        invariant 0 <= index <= |stats|
        invariant stats == old(stats) && clients == old(clients)
        invariant forall j :: 0 <= j < index ==> stats[j].key != k
      {
        if stats[index].key == k {
          RemoveFirstAt(stats, k, index);
          clients := clients - 1;
          stats := stats[..index] + stats[index + 1..];
          return;
        } else {
          index := index + 1;
        }
      }
      RemoveFirstAbsent(stats, k);
    }

    /** `remove_client_from_header`: `remove_client` with the key of the request line. */
    method RemoveClientFromHeader(header: string)
      requires Valid()
      modifies this
      ensures Valid()
      ensures stats == RemoveFirst(old(stats), KeyOrDefault(ParseKeyFromHeader(header)))
      ensures clients == |stats|
      ensures queued == old(queued) && maxClients == old(maxClients)
    {
      RemoveClient(ParseKeyFromHeader(header));
    }
  }
}
