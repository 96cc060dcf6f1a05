/** The access log: a bounded list of visits, newest first. The clock, the
    locale-formatted time, the looked-up location and the browser's
    user-agent string are inputs. */
module AccessLog {
  import opened Common

  datatype LogEntry = LogEntry(id: int, timestamp: string, location: string, userAgent: string)

  /** The log keeps this many entries. */
  const MaxLogs: nat := 100
  /** The stored user agent keeps this many characters. */
  const UserAgentLength: nat := 50

  /** `s.substring(0, n)`: the end is clamped to the length. */
  function Substring(s: string, n: nat): (r: string)
    ensures |r| == Min(|s|, n) && r <= s
  {
    s[..Min(|s|, n)]
  }

  function NewEntry(now: int, timestamp: string, location: string, browserAgent: string): (e: LogEntry)
    ensures |e.userAgent| <= UserAgentLength && e.userAgent <= browserAgent
    ensures |browserAgent| <= UserAgentLength ==> e.userAgent == browserAgent
  {
    LogEntry(now, timestamp, location, Substring(browserAgent, UserAgentLength))
  }

  /** `logAccess`: `[newLog, ...logs].slice(0, 100)`. */
  function LogAccess(logs: seq<LogEntry>, now: int, timestamp: string, location: string, browserAgent: string): (r: seq<LogEntry>)
    ensures |r| == Min(|logs| + 1, MaxLogs)
    ensures r[0] == NewEntry(now, timestamp, location, browserAgent)
    ensures r[1..] <= logs
  {
    ([NewEntry(now, timestamp, location, browserAgent)] + logs)[..Min(|logs| + 1, MaxLogs)]
  }

  /** Below the bound nothing is dropped: all old entries follow the new
      one. At the bound the oldest entry is the one that goes. */
  lemma LogAccessKeepsRecent(logs: seq<LogEntry>, now: int, timestamp: string, location: string, browserAgent: string)
    requires |logs| <= MaxLogs
    ensures |logs| < MaxLogs ==> LogAccess(logs, now, timestamp, location, browserAgent)[1..] == logs
    ensures |logs| == MaxLogs ==> LogAccess(logs, now, timestamp, location, browserAgent)[1..] == logs[..MaxLogs - 1]
  {
    var r := LogAccess(logs, now, timestamp, location, browserAgent);
    assert r[1..] == logs[..|r| - 1];
  }

  /** After a run of visits the log holds the newest visits first, one entry
      each, up to the bound of 100. */
  lemma {:induction false} LogNewestFirst(logs: seq<LogEntry>, visits: seq<int>, timestamp: string, location: string, browserAgent: string)
    requires |logs| <= MaxLogs
    ensures |LogVisits(logs, visits, timestamp, location, browserAgent)| == Min(|logs| + |visits|, MaxLogs)
    ensures forall i :: 0 <= i < Min(|visits|, MaxLogs) ==>
              LogVisits(logs, visits, timestamp, location, browserAgent)[i].id == visits[|visits| - 1 - i]
    decreases |visits|
  {
    if visits != [] {
      var earlier := visits[..|visits| - 1];
      LogNewestFirst(logs, earlier, timestamp, location, browserAgent);
      var before := LogVisits(logs, earlier, timestamp, location, browserAgent);
      var after := LogVisits(logs, visits, timestamp, location, browserAgent);
      forall i | 1 <= i < Min(|visits|, MaxLogs)
        ensures after[i].id == visits[|visits| - 1 - i]
      {
        assert after[i] == after[1..][i - 1] == before[i - 1];
        assert earlier[|earlier| - 1 - (i - 1)] == visits[|visits| - 1 - i];
      }
    }
  }

  /** The log after one visit per clock value, in order. */
  function LogVisits(logs: seq<LogEntry>, visits: seq<int>, timestamp: string, location: string, browserAgent: string): seq<LogEntry>
    decreases |visits|
  {
    if visits == [] then logs
    else LogAccess(LogVisits(logs, visits[..|visits| - 1], timestamp, location, browserAgent),
                   visits[|visits| - 1], timestamp, location, browserAgent)
  }

  /** `clearLogs`, with the user's answer to the confirmation as input. */
  function ClearLogs(logs: seq<LogEntry>, confirmed: bool): (r: seq<LogEntry>)
    ensures confirmed ==> r == []
    ensures !confirmed ==> r == logs
  {
    if confirmed then [] else logs
  }

  /** The first visit after a confirmed clear is the only entry. */
  lemma LogAfterClear(logs: seq<LogEntry>, now: int, timestamp: string, location: string, browserAgent: string)
    ensures LogAccess(ClearLogs(logs, true), now, timestamp, location, browserAgent) ==
            [NewEntry(now, timestamp, location, browserAgent)]
  {
  }
}
