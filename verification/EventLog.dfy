/** The recent-log buffer of the page: newest first, never more than 200 (Log.cpp). */
module EventLog {
  const MAX_UI_LOGS := 200

  datatype Entry = Entry(time: string, level: string, scope: string, text: string)

  function LogLineSpec(logs: seq<Entry>, e: Entry): seq<Entry> {
    var pushed := [e] + logs;
    if |pushed| > MAX_UI_LOGS then pushed[..MAX_UI_LOGS] else pushed
  }

  function Run(logs: seq<Entry>, calls: seq<Entry>): seq<Entry>
    decreases |calls|
  {
    if calls == [] then logs else LogLineSpec(Run(logs, calls[..|calls| - 1]), calls[|calls| - 1])
  }

  /** After any calls the buffer is exactly the last of them, newest first. */
  lemma {:induction false} RecentCalls(calls: seq<Entry>)
    ensures |Run([], calls)| == if |calls| < 200 then |calls| else 200
    ensures forall k :: 0 <= k < |Run([], calls)| ==> Run([], calls)[k] == calls[|calls| - 1 - k]
    decreases |calls|
  {
    if calls != [] {
      RecentCalls(calls[..|calls| - 1]);
    }
  }

  class RecentLogs {
    var logs: seq<Entry>

    constructor ()
      ensures logs == []
    {
      logs := [];
    }

    method LogLine(e: Entry)
      requires |logs| <= MAX_UI_LOGS
      modifies this
      ensures logs == LogLineSpec(old(logs), e) && |logs| <= MAX_UI_LOGS
    {
      logs := [e] + logs;
      ghost var pushed := logs;
      while |logs| > MAX_UI_LOGS
        invariant logs == pushed[..|logs|] && |logs| <= |pushed|
        invariant |pushed| >= MAX_UI_LOGS ==> |logs| >= MAX_UI_LOGS
        invariant |pushed| < MAX_UI_LOGS ==> logs == pushed
      {
        logs := logs[..|logs| - 1];
      }
    }
  }
}
