/** The diagnostic ring buffer of src/growlight.c: add_log and get_logs. */
module LogRing {
  import opened Wrappers

  const MAXIMUM_LOG_ENTRIES: nat := 1024

  datatype Entry = Entry(msg: string, when: int)

  /** A slot with a null message is one never written. */
  class Ring {
    var rblast: nat
    var logs: array<Option<Entry>>
    ghost var history: seq<Entry>

    /** Message k (counting from 1) lives in slot k mod 1024 until the next lap. */
    ghost predicate Valid()
      reads this, logs
    {
      var h := |history|;
      && logs.Length == MAXIMUM_LOG_ENTRIES
      && rblast == h % 1024
      && (forall k :: 1 <= k <= h && h - 1024 < k ==> logs[k % 1024] == Some(history[k - 1]))
      && (h < 1024 ==> logs[0] == None && forall s :: h < s < 1024 ==> logs[s] == None)
    }

    constructor ()
      ensures Valid() && history == [] && fresh(logs)
    {
      rblast, history := 0, [];
      logs := new Option<Entry>[MAXIMUM_LOG_ENTRIES](i => None);
    }

    /** add_log, allocation succeeding. */
    method AddLog(msg: string, when: int)
      requires Valid()
      modifies this`rblast, this`history, logs
      ensures Valid() && history == old(history) + [Entry(msg, when)]
    {
      rblast := rblast + 1;
      if rblast == MAXIMUM_LOG_ENTRIES {
        rblast := 0;
      }
      logs[rblast] := Some(Entry(msg, when));
      history := history + [Entry(msg, when)];
    }

    /** A message with fewer than 1024 newer ones is still there. */
    lemma Kept(i: nat)
      requires Valid() && i < MAXIMUM_LOG_ENTRIES
      ensures i < |history| ==> logs[(|history| - i) % 1024].Some?
    {
    }

    /**
     get_logs: n must be 1 to 1024. It copies exactly the newest messages, newest first, as many as
     were asked for, logged and kept; a null message marks the end when fewer than n are there.
     */
    method GetLogs(n: nat, cplogs: array<Option<Entry>>) returns (idx: int)
      requires Valid() && cplogs != logs && cplogs.Length >= n
      modifies cplogs
      ensures n == 0 || n > MAXIMUM_LOG_ENTRIES ==> idx == -1 && cplogs[..] == old(cplogs[..])
      ensures 1 <= n <= MAXIMUM_LOG_ENTRIES ==>
        && idx == (if n <= |history| then n else |history|)
        && (forall i :: 0 <= i < idx ==> cplogs[i] == Some(history[|history| - 1 - i]))
        && (idx < n ==> cplogs[idx] == None)
        && (forall i :: idx < i < cplogs.Length ==> cplogs[i] == old(cplogs[i]))
    {
      if n == 0 || n > MAXIMUM_LOG_ENTRIES {
        return -1;
      }
      ghost var h := |history|;
      idx := 0;
      var rb := rblast;
      while logs[rb].Some?
        invariant 0 <= idx < n && idx <= h
        invariant rb == (h - idx) % 1024
        invariant forall i :: 0 <= i < idx ==> cplogs[i] == Some(history[h - 1 - i])
        invariant forall i :: idx <= i < cplogs.Length ==> cplogs[i] == old(cplogs[i])
        decreases n - idx
      {
        assert idx < h;
        cplogs[idx] := logs[rb];
        if rb == 0 {
          rb := MAXIMUM_LOG_ENTRIES - 1;
        } else {
          rb := rb - 1;
        }
        idx := idx + 1;
        if idx == n {
          break;
        }
      }
      if idx < n {
        Kept(idx);
        cplogs[idx] := None;
      }
    }
  }
}
