/**
 * The main thread's part of the alarm program (New_Alarm_Cond.c): the alarm
 * list, a chain of request nodes behind a header node in which a new request
 * goes before the first one with a strictly later time, and the handling of
 * one line of input (cut at its newline, parsed, inserted).
 */
module NewAlarmCond {
  import opened Wrappers
  import opened Types
  import CommandParser

  // ---------------------------------------------------------------------------
  // What the list holds, as a sequence of requests
  // ---------------------------------------------------------------------------

  /** The requests are in non-decreasing order of time. */
  predicate SortedByTime(s: seq<AlarmRequest>)
  {
    forall i, j :: 0 <= i < j < |s| ==> s[i].time <= s[j].time
  }

  /** The position of the first request whose time is strictly greater than t; |s| if none is. */
  function InsertionPoint(s: seq<AlarmRequest>, t: int): (k: nat)
    ensures k <= |s|
    ensures forall j :: 0 <= j < k ==> s[j].time <= t
    ensures k < |s| ==> t < s[k].time
  {
    if s == [] || t < s[0].time then 0 else 1 + InsertionPoint(s[1..], t)
  }

  /** Sorted insertion, by recursion over the list: x goes before the first request with a later time. */
  function InsertSorted(s: seq<AlarmRequest>, x: AlarmRequest): seq<AlarmRequest>
  {
    if s == [] then [x]
    else if x.time < s[0].time then [x] + s
    else [s[0]] + InsertSorted(s[1..], x)
  }

  /** How many requests carry the given id. */
  function IdCount(s: seq<AlarmRequest>, id: int): nat
  {
    if s == [] then 0 else (if s[0].alarmId == id then 1 else 0) + IdCount(s[1..], id)
  }

  /** The conditions of InsertionPoint's contract single out one position. */
  lemma InsertionPointUnique(s: seq<AlarmRequest>, t: int, k: nat)
    requires k <= |s|
    requires forall j :: 0 <= j < k ==> s[j].time <= t
    requires k < |s| ==> t < s[k].time
    ensures k == InsertionPoint(s, t)
  {
  }

  /**
   * Inserting x keeps the old requests in their order and puts x right
   * before the first request whose time is strictly greater than x's, so
   * after every request with the same or an earlier time.
   */
  lemma {:induction false} InsertSortedSplice(s: seq<AlarmRequest>, x: AlarmRequest)
    ensures var k := InsertionPoint(s, x.time);
            InsertSorted(s, x) == s[..k] + [x] + s[k..]
  {
    if s != [] && s[0].time <= x.time {
      InsertSortedSplice(s[1..], x);
      var k := InsertionPoint(s[1..], x.time);
      assert s[1..][..k] == s[1..k + 1];
      assert s[1..][k..] == s[k + 1..];
      assert [s[0]] + s[1..k + 1] == s[..k + 1];
    }
  }

  /** Putting x in at position k: one more element, x at k, the others in their old order. */
  lemma SpliceParts(s: seq<AlarmRequest>, k: nat, x: AlarmRequest)
    requires k <= |s|
    ensures var r := s[..k] + [x] + s[k..];
            |r| == |s| + 1 && r[k] == x && r[..k] + r[k + 1..] == s &&
            multiset(r) == multiset(s) + multiset{x}
  {
    var r := s[..k] + [x] + s[k..];
    assert r[..k] == s[..k];
    assert r[k + 1..] == s[k..];
    assert s == s[..k] + s[k..];
  }

  /** Putting x in a sorted sequence after every element that is not later and before the rest keeps it sorted. */
  lemma SpliceSorted(s: seq<AlarmRequest>, k: nat, x: AlarmRequest)
    requires SortedByTime(s) && k <= |s|
    requires forall j :: 0 <= j < k ==> s[j].time <= x.time
    requires k < |s| ==> x.time < s[k].time
    ensures SortedByTime(s[..k] + [x] + s[k..])
  {
    var r := s[..k] + [x] + s[k..];
    forall i, j | 0 <= i < j < |r|
      ensures r[i].time <= r[j].time
    {
      if j < k {
        assert r[i] == s[i] && r[j] == s[j];
      } else if j == k {
        assert r[i] == s[i];
      } else if i == k {
        assert r[j] == s[j - 1];
        assert s[k].time <= s[j - 1].time;
      } else if i < k {
        assert r[i] == s[i] && r[j] == s[j - 1];
      } else {
        assert r[i] == s[i - 1] && r[j] == s[j - 1];
      }
    }
  }

  /** The list grows by exactly one; removing the new request gives back the old list. */
  lemma InsertSortedAddsOne(s: seq<AlarmRequest>, x: AlarmRequest)
    ensures var r := InsertSorted(s, x);
            var k := InsertionPoint(s, x.time);
            |r| == |s| + 1 && r[k] == x && r[..k] + r[k + 1..] == s
  {
    InsertSortedSplice(s, x);
    SpliceParts(s, InsertionPoint(s, x.time), x);
  }

  /** When no request has a later time, the new request goes at the end. */
  lemma InsertSortedAppendsLast(s: seq<AlarmRequest>, x: AlarmRequest)
    requires forall j :: 0 <= j < |s| ==> s[j].time <= x.time
    ensures InsertSorted(s, x) == s + [x]
  {
    InsertionPointUnique(s, x.time, |s|);
    InsertSortedSplice(s, x);
    assert s[..|s|] == s;
  }

  /** Insertion into a sorted list leaves it sorted. */
  lemma InsertSortedKeepsSorted(s: seq<AlarmRequest>, x: AlarmRequest)
    requires SortedByTime(s)
    ensures SortedByTime(InsertSorted(s, x))
  {
    InsertSortedSplice(s, x);
    SpliceSorted(s, InsertionPoint(s, x.time), x);
  }

  /** The new list holds exactly the old requests and the new one. */
  lemma InsertSortedIsPermutation(s: seq<AlarmRequest>, x: AlarmRequest)
    ensures multiset(InsertSorted(s, x)) == multiset(s) + multiset{x}
  {
    InsertSortedSplice(s, x);
    SpliceParts(s, InsertionPoint(s, x.time), x);
  }

  /** Insertion does not look at ids: a request whose id is already listed is still added. */
  lemma {:induction false} InsertSortedIgnoresIds(s: seq<AlarmRequest>, x: AlarmRequest)
    ensures IdCount(InsertSorted(s, x), x.alarmId) == IdCount(s, x.alarmId) + 1
  {
    if s == [] {
      assert IdCount([x], x.alarmId) == 1 + IdCount([], x.alarmId);
    } else if x.time < s[0].time {
      assert ([x] + s)[1..] == s;
    } else {
      InsertSortedIgnoresIds(s[1..], x);
      assert ([s[0]] + InsertSorted(s[1..], x))[1..] == InsertSorted(s[1..], x);
    }
  }

  // ---------------------------------------------------------------------------
  // The linked list
  // ---------------------------------------------------------------------------

  /** A node of the list: the request it carries and the link to the next node. */
  class Node {
    const request: AlarmRequest
    var next: Node?

    constructor (request: AlarmRequest)
      ensures this.request == request && next == null
    {
      this.request := request;
      next := null;
    }
  }

  /** No node occurs twice in the chain. */
  predicate Distinct(s: seq<Node>)
  {
    forall i, j :: 0 <= i < j < |s| ==> s[i] != s[j]
  }

  /** Splicing a node that is not in the chain into it keeps the chain free of repeats. */
  lemma SpliceDistinct(s: seq<Node>, k: nat, n: Node)
    requires Distinct(s) && n !in s && k <= |s|
    ensures Distinct(s[..k] + [n] + s[k..])
  {
    var t := s[..k] + [n] + s[k..];
    forall i, j | 0 <= i < j < |t|
      ensures t[i] != t[j]
    {
      if j < k {
        assert t[i] == s[i] && t[j] == s[j];
      } else if j == k {
        assert t[i] == s[i];
      } else if i == k {
        assert t[j] == s[j - 1];
      } else if i < k {
        assert t[i] == s[i] && t[j] == s[j - 1];
      } else {
        assert t[i] == s[i - 1] && t[j] == s[j - 1];
      }
    }
  }

  /** Request i is carried by node i + 1: the nodes after the header carry the requests in order. */
  predicate Carries(s: seq<Node>, c: seq<AlarmRequest>)
  {
    |c| == |s| - 1 && forall i :: 0 <= i < |c| ==> c[i] == s[i + 1].request
  }

  /** Splicing a node in after node k puts its request in after request k - 1. */
  lemma SpliceCarries(s: seq<Node>, c: seq<AlarmRequest>, k: nat, n: Node)
    requires Carries(s, c) && k < |s|
    ensures Carries(s[..k + 1] + [n] + s[k + 1..], c[..k] + [n.request] + c[k..])
  {
    var s' := s[..k + 1] + [n] + s[k + 1..];
    var c' := c[..k] + [n.request] + c[k..];
    forall i | 0 <= i < |c'|
      ensures c'[i] == s'[i + 1].request
    {
      if i < k {
        assert c'[i] == c[i] && s'[i + 1] == s[i + 1];
      } else if k < i {
        assert c'[i] == c[i - 1] && s'[i + 1] == s[i];
      }
    }
  }

  /** The header is a zero-initialised request: id 0, the first kind, time 0, no message. */
  const HeaderRequest: AlarmRequest := AlarmRequest(0, StartAlarm, 0, "")

  /**
   * The alarm list: the header node and the chain behind it. `nodes` is the
   * chain in order, the header first; `Contents` the requests of the nodes
   * after the header.
   */
  class AlarmList {
    const header: Node
    ghost var nodes: seq<Node>
    ghost var Contents: seq<AlarmRequest>

    ghost predicate Valid()
      reads this, nodes
    {
      |nodes| >= 1 && nodes[0] == header && header.request == HeaderRequest &&
      (forall i :: 0 <= i < |nodes| - 1 ==> nodes[i].next == nodes[i + 1]) &&
      nodes[|nodes| - 1].next == null &&
      Distinct(nodes) &&
      Carries(nodes, Contents)
    }

    /** The list at program start: the header alone. */
    constructor ()
      ensures Valid() && Contents == [] && fresh(header)
    {
      var h := new Node(HeaderRequest);
      header := h;
      nodes := [h];
      Contents := [];
    }

    /**
     * insert_to_alarm_list: walk from the header with `current` and `next`
     * and link the new node in before the first node with a strictly later
     * time, or after the last node if there is none. Only the predecessor's
     * link and the new node's link change.
     */
    method Insert(n: Node)
      requires Valid() && n !in nodes
      modifies this, nodes, n
      ensures Valid()
      ensures Contents == InsertSorted(old(Contents), n.request)
      ensures var k := InsertionPoint(old(Contents), n.request.time);
              nodes == old(nodes)[..k + 1] + [n] + old(nodes)[k + 1..]
      ensures SortedByTime(old(Contents)) ==> SortedByTime(Contents)
    {
      ghost var contents0 := Contents;
      ghost var nodes0 := nodes;
      InsertSortedSplice(contents0, n.request);
      if SortedByTime(contents0) {
        InsertSortedKeepsSorted(contents0, n.request);
      }
      var current := header;
      var next := header.next;
      ghost var k := 0;
      while next != null
        invariant 0 <= k < |nodes|
        invariant current == nodes[k]
        invariant next == (if k + 1 < |nodes| then nodes[k + 1] else null)
        invariant forall j :: 0 <= j < k ==> Contents[j].time <= n.request.time
        decreases |nodes| - k
      {
        if n.request.time < next.request.time {
          InsertionPointUnique(contents0, n.request.time, k);
          LinkAfter(current, next, k, n);
          return;
        } else {
          assert Contents[k] == next.request;
          current := next;
          next := next.next;
          k := k + 1;
        }
      }
      InsertionPointUnique(contents0, n.request.time, k);
      LinkAfter(current, null, k, n);
    }

    /** The two link updates that put n between nodes[k] and its successor `next`. */
    method LinkAfter(current: Node, next: Node?, ghost k: nat, n: Node)
      requires Valid() && k < |nodes| && current == nodes[k] && next == current.next && n !in nodes
      modifies this, current, n
      ensures Valid()
      ensures nodes == old(nodes)[..k + 1] + [n] + old(nodes)[k + 1..]
      ensures Contents == old(Contents)[..k] + [n.request] + old(Contents)[k..]
    {
      ghost var nodes0 := nodes;
      SpliceDistinct(nodes0, k + 1, n);
      SpliceCarries(nodes0, Contents, k, n);
      current.next := n;
      n.next := next;
      nodes := nodes[..k + 1] + [n] + nodes[k + 1..];
      Contents := Contents[..k] + [n.request] + Contents[k..];
      forall i | 0 <= i < |nodes| - 1
        ensures nodes[i].next == nodes[i + 1]
      {
        if i < k {
          assert nodes[i] == nodes0[i] != current && nodes[i + 1] == nodes0[i + 1];
        } else if k + 1 < i {
          assert nodes[i] == nodes0[i - 1] != current && nodes[i + 1] == nodes0[i];
        }
      }
    }

    /** handle_request: a request is inserted, with no check on its id. */
    method HandleRequest(n: Node)
      requires Valid() && n !in nodes
      modifies this, nodes, n
      ensures Valid()
      ensures Contents == InsertSorted(old(Contents), n.request)
    {
      Insert(n);
    }

    /** handle_request_thread_safe without the mutex and the console message: the insertion. */
    method HandleRequestThreadSafe(n: Node)
      requires Valid() && n !in nodes
      modifies this, nodes, n
      ensures Valid()
      ensures Contents == InsertSorted(old(Contents), n.request)
    {
      Insert(n);
    }
  }

  // ---------------------------------------------------------------------------
  // One line of input
  // ---------------------------------------------------------------------------

  /** The characters of s before the first occurrence of c; all of s if c does not occur. */
  function UpTo(s: seq<char>, c: char): (r: string)
    ensures |r| <= |s| && r == s[..|r|] && c !in r
    ensures |r| < |s| ==> s[|r|] == c
  {
    if s == [] || s[0] == c then [] else [s[0]] + UpTo(s[1..], c)
  }

  /** The C string a buffer holds: its characters before the first NUL. */
  function CString(buf: seq<char>): string
  {
    UpTo(buf, '\0')
  }

  /** strcspn(buf, "\n"): the length of the longest prefix that holds neither a newline nor the terminator. */
  function NewlineSpan(buf: seq<char>): (k: nat)
    requires '\0' in buf
    ensures k < |buf| && (buf[k] == '\n' || buf[k] == '\0')
    ensures forall j :: 0 <= j < k ==> buf[j] != '\n' && buf[j] != '\0'
  {
    if buf[0] == '\n' || buf[0] == '\0' then 0 else 1 + NewlineSpan(buf[1..])
  }

  /** A line cut at its first newline. */
  function TruncateAtNewline(line: string): string
  {
    UpTo(line, '\n')
  }

  /** A line without a newline is left as it is. */
  lemma {:induction false} TruncateAtNewlineUnchanged(line: string)
    requires '\n' !in line
    ensures TruncateAtNewline(line) == line
  {
    if line != [] {
      assert line[0] in line;
      assert forall c :: c in line[1..] ==> c in line;
      TruncateAtNewlineUnchanged(line[1..]);
    }
  }

  /** Cutting a line twice is cutting it once. */
  lemma TruncateAtNewlineIdempotent(line: string)
    ensures TruncateAtNewline(TruncateAtNewline(line)) == TruncateAtNewline(line)
  {
    TruncateAtNewlineUnchanged(TruncateAtNewline(line));
  }

  /** Writing a NUL over the first newline leaves the buffer holding the line cut at that newline. */
  lemma {:induction false} NulAtNewlineCutsLine(buf: seq<char>)
    requires '\0' in buf
    ensures CString(buf[NewlineSpan(buf) := '\0']) == TruncateAtNewline(CString(buf))
  {
    if buf[0] != '\n' && buf[0] != '\0' {
      var tail := buf[1..];
      assert '\0' in tail by {
        var z :| 0 <= z < |buf| && buf[z] == '\0';
        assert tail[z - 1] == '\0';
      }
      NulAtNewlineCutsLine(tail);
      var k := NewlineSpan(tail);
      var cut := buf[k + 1 := '\0'];
      assert CString(cut) == [buf[0]] + CString(tail[k := '\0']) by {
        assert cut[0] == buf[0] && cut[1..] == tail[k := '\0'];
      }
      assert TruncateAtNewline(CString(buf)) == [buf[0]] + TruncateAtNewline(CString(tail)) by {
        assert CString(buf) == [buf[0]] + CString(tail);
        assert CString(buf)[1..] == CString(tail);
      }
    }
  }

  /** The newline strip of the main loop: a NUL is written where strcspn stops. */
  method StripNewline(input: array<char>)
    requires '\0' in input[..]
    modifies input
    ensures input[..] == old(input[..])[NewlineSpan(old(input[..])) := '\0']
    ensures CString(input[..]) == TruncateAtNewline(CString(old(input[..])))
  {
    var k := NewlineSpan(input[..]);
    input[k] := '\0';
    NulAtNewlineCutsLine(old(input[..]));
  }

  /**
   * A line without its newline: a command that parses becomes a new node
   * handed to the list; any other line is a bad command and changes nothing.
   */
  method HandleLine(list: AlarmList, line: string) returns (accepted: bool)
    requires list.Valid() && CommandParser.Representable(line)
    modifies list, list.nodes
    ensures list.Valid()
    ensures accepted <==> CommandParser.Parse(line).Some?
    ensures !accepted ==> list.Contents == old(list.Contents)
    ensures accepted ==> list.Contents == InsertSorted(old(list.Contents), CommandParser.Parse(line).value)
  {
    var request := CommandParser.ParseRequest(line);
    if request.None? {
      return false;
    }
    var node := new Node(request.value);
    list.HandleRequestThreadSafe(node);
    return true;
  }

  /** One turn of the main loop after the line is read: strip the newline, then handle the line. */
  method ProcessLine(list: AlarmList, input: array<char>) returns (accepted: bool)
    requires list.Valid() && '\0' in input[..]
    requires CommandParser.Representable(TruncateAtNewline(CString(input[..])))
    modifies input, list, list.nodes
    ensures input[..] == old(input[..])[NewlineSpan(old(input[..])) := '\0']
    ensures list.Valid()
    ensures var line := TruncateAtNewline(CString(old(input[..])));
            (accepted <==> CommandParser.Parse(line).Some?) &&
            (!accepted ==> list.Contents == old(list.Contents)) &&
            (accepted ==> list.Contents == InsertSorted(old(list.Contents), CommandParser.Parse(line).value))
  {
    StripNewline(input);
    accepted := HandleLine(list, CString(input[..]));
  }
}
