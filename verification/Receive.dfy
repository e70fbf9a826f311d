/**
 * The receive loop of forward_request_to_server (src/components/proxy_server.c): a fixed
 * buffer filled from a stream of receive results until the header terminator shows up, the
 * buffer is full, or nothing more arrives.
 */
module Receive {
  import opened CText
  import opened Wrappers

  const MAX_RESPONSE_SIZE: nat := 1048576
  const ROOM: nat := MAX_RESPONSE_SIZE - 1  // one byte is kept for the terminator
  const HEADER_END: string := "\r\n\r\n"

  // What recv returns for a given room: nothing once the peer is silent, closed or in error.
  function Delivered(arrivals: seq<string>, room: nat): string {
    if arrivals == [] then "" else if |arrivals[0]| <= room then arrivals[0] else arrivals[0][..room]
  }

  function Pending(arrivals: seq<string>, room: nat): seq<string> {
    if arrivals == [] then []
    else if |arrivals[0]| <= room then arrivals[1..]
    else [arrivals[0][room..]] + arrivals[1..]
  }

  predicate Complete(got: string) {
    StrStr(got, 0, HEADER_END).Some?
  }

  // What the loop ends up with, having `got` already.
  function Gather(arrivals: seq<string>, got: string): string
    decreases ROOM - |got|
  {
    var data := Delivered(arrivals, if |got| < ROOM then ROOM - |got| else 0);
    if |got| >= ROOM || data == "" then got
    else if Complete(got + data) then got + data
    else Gather(Pending(arrivals, ROOM - |got|), got + data)
  }

  class Upstream {
    var arrivals: seq<string>

    constructor (arrivals: seq<string>)
      ensures this.arrivals == arrivals
    {
      this.arrivals := arrivals;
    }

    method Recv(room: nat) returns (data: string)
      modifies this
      ensures data == Delivered(old(arrivals), room) && |data| <= room
      ensures arrivals == Pending(old(arrivals), room)
    {
      data := Delivered(arrivals, room);
      arrivals := Pending(arrivals, room);
    }
  }

  // ---------------------------------------------------------------- reading up to the NUL

  // Bytes behind the terminator do not matter to strstr.
  lemma {:induction false} NulStops(s: string, n: nat, pos: nat, pat: string)
    requires n < |s| && s[n] == NUL && NUL !in pat && pat != "" && pos <= n
    ensures StrStr(s, pos, pat) == StrStr(s[..n], pos, pat)
    decreases n - pos
  {
    MatchBeforeNul(s, n, pos, pat);
    if pos < n {
      NulStops(s, n, pos + 1, pat);
    }
  }

  lemma MatchBeforeNul(s: string, n: nat, pos: nat, pat: string)
    requires n < |s| && s[n] == NUL && NUL !in pat && pos <= n
    ensures MatchAt(s, pos, pat) <==> MatchAt(s[..n], pos, pat)
  {
    if pos + |pat| > n {
      assert pat[n - pos] != NUL == s[pos + (n - pos)];
    } else {
      assert forall i {:trigger pat[i]} :: 0 <= i < |pat| ==> s[pos + i] == s[..n][pos + i];
    }
  }

  lemma ShortIsIncomplete(got: string)
    requires |got| < 4
    ensures !Complete(got)
  {
  }

  // ---------------------------------------------------------------- what gathering means

  function Joined(chunks: seq<string>): string {
    if chunks == [] then "" else chunks[0] + Joined(chunks[1..])
  }

  lemma DeliveryConserves(arrivals: seq<string>, room: nat)
    ensures Delivered(arrivals, room) + Joined(Pending(arrivals, room)) == Joined(arrivals)
  {
    if arrivals != [] && |arrivals[0]| > room {
      var rest := [arrivals[0][room..]] + arrivals[1..];
      assert rest[1..] == arrivals[1..];
      assert arrivals[0] == arrivals[0][..room] + arrivals[0][room..];
    }
  }

  // The bytes received so far and the ones still to come.
  datatype Stream = Stream(got: string, arrivals: seq<string>)

  predicate CanReceive(s: Stream) {
    |s.got| < ROOM && Delivered(s.arrivals, ROOM - |s.got|) != ""
  }

  function ReceiveOnce(s: Stream): Stream
    requires CanReceive(s)
  {
    Stream(s.got + Delivered(s.arrivals, ROOM - |s.got|), Pending(s.arrivals, ROOM - |s.got|))
  }

  ghost predicate Link(trail: seq<Stream>, i: nat)
    requires i + 1 < |trail|
  {
    CanReceive(trail[i]) && trail[i + 1] == ReceiveOnce(trail[i])
  }

  // `trail` records the stream after each receive from s on.
  ghost predicate Receives(s: Stream, trail: seq<Stream>) {
    && trail != [] && trail[0] == s
    && forall i {:trigger Link(trail, i)} :: 0 <= i < |trail| - 1 ==> Link(trail, i)
  }

  // The trail ends at the first receive after which the terminator has arrived, before any
  // NUL; else when the buffer is full or nothing more comes.
  ghost predicate StopsRight(trail: seq<Stream>)
    requires trail != []
  {
    && (forall i :: 0 < i < |trail| - 1 ==> !Complete(trail[i].got))
    && ((|trail| > 1 && Complete(trail[|trail| - 1].got)) || !CanReceive(trail[|trail| - 1]))
  }

  // Nothing is lost, added or reordered.
  ghost predicate Conserves(s: Stream, trail: seq<Stream>) {
    forall i :: 0 <= i < |trail| ==> trail[i].got + Joined(trail[i].arrivals) == s.got + Joined(s.arrivals)
  }

  lemma ReceiveOnceConserves(s: Stream)
    requires CanReceive(s)
    ensures ReceiveOnce(s).got + Joined(ReceiveOnce(s).arrivals) == s.got + Joined(s.arrivals)
  {
    DeliveryConserves(s.arrivals, ROOM - |s.got|);
    var data, rest := Delivered(s.arrivals, ROOM - |s.got|), Joined(Pending(s.arrivals, ROOM - |s.got|));
    assert (s.got + data) + rest == s.got + (data + rest);
  }

  lemma TrailGrows(s: Stream, rest: seq<Stream>)
    requires CanReceive(s) && Receives(ReceiveOnce(s), rest)
    requires !Complete(ReceiveOnce(s).got) && StopsRight(rest) && Conserves(ReceiveOnce(s), rest)
    ensures Receives(s, [s] + rest) && StopsRight([s] + rest) && Conserves(s, [s] + rest)
  {
    ReceiveOnceConserves(s);
    var trail := [s] + rest;
    assert forall i :: 1 <= i < |trail| ==> trail[i] == rest[i - 1];
    forall i | 0 <= i < |trail| - 1
      ensures Link(trail, i)
    {
      assert i > 0 ==> Link(rest, i - 1);
    }
  }

  // The loop follows such a trail and returns what its last stream has got.
  lemma {:induction false} GatherMeaning(s: Stream) returns (trail: seq<Stream>)
    requires |s.got| <= ROOM
    ensures Receives(s, trail) && StopsRight(trail) && Conserves(s, trail)
    ensures trail[|trail| - 1].got == Gather(s.arrivals, s.got)
    decreases ROOM - |s.got|
  {
    trail := [s];
    if CanReceive(s) {
      var t := ReceiveOnce(s);
      if Complete(t.got) {
        ReceiveOnceConserves(s);
        trail := [s, t];
      } else {
        var rest := GatherMeaning(t);
        TrailGrows(s, rest);
        trail := [s] + rest;
        assert trail[|trail| - 1] == rest[|rest| - 1];
      }
    }
  }

  // A response is complete once CR LF CR LF stands in it, before any NUL.
  lemma CompleteMeans(got: string)
    ensures Complete(got) <==>
            exists k: nat :: k + 4 <= |got| && got[k..k + 4] == ['\r', '\n', '\r', '\n'] && '\0' !in got[..k]
  {
    if Complete(got) {
      var k := StrStr(got, 0, HEADER_END).value;
      assert forall i {:trigger HEADER_END[i]} :: 0 <= i < 4 ==> got[k + i] == HEADER_END[i];
      assert got[k..k + 4] == HEADER_END;
      assert '\0' !in got[..k];
    }
    if k: nat :| k + 4 <= |got| && got[k..k + 4] == ['\r', '\n', '\r', '\n'] && '\0' !in got[..k] {
      assert forall i {:trigger HEADER_END[i]} :: 0 <= i < 4 ==> got[k + i] == got[k..k + 4][i] == HEADER_END[i];
      assert forall j :: 0 <= j < k ==> got[j] == got[..k][j];
      StrStrFinds(got, 0, HEADER_END, k);
    }
  }

  // The first m arrivals bring something, the last of them completes what there is or the next
  // brings nothing, and none before it does.
  ghost predicate Stops(arrivals: seq<string>, got: string, m: nat) {
    && m <= |arrivals| && (forall i :: 0 <= i < m ==> arrivals[i] != "")
    && (forall i :: 0 < i < m ==> !Complete(got + Joined(arrivals[..i])))
    && (m == |arrivals| || arrivals[m] == "" || (m > 0 && Complete(got + Joined(arrivals[..m]))))
  }

  lemma JoinedCons(data: string, rest: seq<string>, got: string, i: nat)
    requires i <= |rest|
    ensures got + Joined(([data] + rest)[..i + 1]) == (got + data) + Joined(rest[..i])
  {
    var some := ([data] + rest)[..i + 1];
    assert some[0] == data && some[1..] == rest[..i];
    assert got + (data + Joined(rest[..i])) == (got + data) + Joined(rest[..i]);
  }

  lemma StopsLater(data: string, rest: seq<string>, got: string, n: nat)
    requires data != "" && !Complete(got + data) && Stops(rest, got + data, n)
    ensures Stops([data] + rest, got, n + 1)
  {
    forall i | 0 < i < n + 1
      ensures !Complete(got + Joined(([data] + rest)[..i]))
    {
      JoinedCons(data, rest, got, i - 1);
      assert rest[..0] == [] && (got + data) + "" == got + data;
    }
    JoinedCons(data, rest, got, n);
  }

  // As long as everything fits the buffer, the response is what arrives up to the first receive
  // that completes it, or up to the first that brings nothing.
  lemma {:induction false} GatherArrivals(arrivals: seq<string>, got: string) returns (m: nat)
    requires |got| + |Joined(arrivals)| <= 1048575
    ensures Stops(arrivals, got, m) && Gather(arrivals, got) == got + Joined(arrivals[..m])
    decreases |arrivals|
  {
    m := 0;
    assert arrivals[..0] == [] && got + "" == got;
    if arrivals != [] && arrivals[0] != "" {
      var data, rest := arrivals[0], arrivals[1..];
      assert arrivals == [data] + rest && rest[..0] == [];
      if Complete(got + data) {
        m := 1;
        JoinedCons(data, rest, got, 0);
        assert (got + data) + "" == got + data;
      } else {
        var n := GatherArrivals(rest, got + data);
        m := n + 1;
        JoinedCons(data, rest, got, n);
        StopsLater(data, rest, got, n);
      }
    }
  }

  // What does not fit is cut after 1048575 bytes.
  lemma GatherCut(chunk: string)
    ensures Gather([chunk], "") == if |chunk| <= 1048575 then chunk else chunk[..1048575]
  {
    var data := Delivered([chunk], 1048575);
    assert "" + data == data;
    if data != "" && !Complete(data) && |data| < ROOM {
      assert Pending([chunk], ROOM) == [];
      assert Gather([], data) == data;
    }
  }

  // ---------------------------------------------------------------- the loop

  // recv writing into the buffer behind what is there.
  method Store(buffer: array<char>, total: nat, data: string)
    requires total + |data| <= buffer.Length
    modifies buffer
    ensures buffer[..total + |data|] == old(buffer[..total]) + data
  {
    for i := 0 to |data|
      invariant buffer[..total + i] == old(buffer[..total]) + data[..i]
    {
      buffer[total + i] := data[i];
    }
    assert data[..|data|] == data;
  }

  // The terminator test on the buffer as it is, stale bytes and all.
  method HeaderEndFound(buffer: array<char>, total: nat) returns (found: bool)
    requires total < buffer.Length
    modifies buffer
    ensures buffer[..total] == old(buffer[..total])
    ensures found <==> Complete(buffer[..total])
  {
    buffer[total] := NUL;
    found := StrStr(buffer[..], 0, HEADER_END).Some?;
    NulStops(buffer[..], total, 0, HEADER_END);
    assert buffer[..][..total] == buffer[..total];
  }

  // The loop stays in the buffer, terminates, and returns the gathered bytes; once the
  // terminator is found one of the two size tests always ends it, because they overlap.
  method ReceiveResponse(up: Upstream, buffer: array<char>) returns (total: nat)
    requires buffer.Length == MAX_RESPONSE_SIZE
    modifies up, buffer
    ensures total <= ROOM
    ensures buffer[..total] == Gather(old(up.arrivals), "")
    ensures total > 0 ==> buffer[total] == NUL
  {
    total := 0;
    var headerEndFound := false;
    assert buffer[..0] == "";
    while total < ROOM
      invariant total <= ROOM && !headerEndFound
      invariant Gather(up.arrivals, buffer[..total]) == Gather(old(up.arrivals), "")
      decreases ROOM - total
    {
      ghost var got := buffer[..total];
      var data := up.Recv(MAX_RESPONSE_SIZE - total - 1);
      if data == "" {
        if total > 0 {
          break;
        } else {
          return;
        }
      }
      Store(buffer, total, data);
      total := total + |data|;
      assert buffer[..total] == got + data;

      if !headerEndFound && total >= 4 {
        headerEndFound := HeaderEndFound(buffer, total);
        if headerEndFound {
          if total < 2048 {
            break;
          }
        }
      } else {
        ShortIsIncomplete(buffer[..total]);
      }
      if headerEndFound && total > 1024 {
        break;
      }
    }
    if total > 0 {
      ghost var got := buffer[..total];
      buffer[total] := NUL;
      assert buffer[..total] == got;
    }
  }
}
