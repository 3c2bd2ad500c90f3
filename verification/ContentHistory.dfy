/**
  What the record of commits tells about whole runs: no update is lost, every link was once listed, nothing
  committed is forgotten, and when a delete removes the links of the row that was stored.
 */
module ContentHistory {
  import opened ContentModel
  import opened ContentProtocol
  import opened ContentSerial
  import ContentStore

  /**
    No lost update, over every run: the committed versions of a row go up by exactly one from version 1,
    and each update was computed from, and found in the table, the very row it replaced.
   */
  lemma NoLostUpdate(run: seq<State>, actions: seq<Action>, n: nat, id: string, k: nat)
    requires IsRun(run, actions) && n < |run|
    requires id in run[n].history && k < |run[n].history[id]|
    ensures
      var commits := run[n].history[id];
      && commits[k].row.version == k + 1
      && (k > 0 ==> commits[k].Updated? && commits[k].base == commits[k - 1].row && commits[k].existing == Row(commits[k - 1].row))
      && (id in run[n].rows ==> run[n].rows[id] == commits[|commits| - 1].row)
  {
    RunKeepsInv(run, actions, n);
    assert Chain(id, run[n].history[id]);
    if k > 0 {
      var commits := run[n].history[id];
      assert commits[k] == Updated(commits[k].row, commits[k - 1].row, Row(commits[k - 1].row));
    }
  }

  /** Over every run, with crashes anywhere: each join row present was listed by some committed version of its content. */
  lemma LinksWereOnceCommitted(run: seq<State>, actions: seq<Action>, n: nat)
    requires IsRun(run, actions) && n < |run|
    ensures forall key :: key in run[n].casts ==> OnceListed(run[n], Cast, key, run[n].casts[key])
    ensures forall key :: key in run[n].attrs ==> OnceListed(run[n], Attribute, key, run[n].attrs[key])
  {
    RunKeepsInv(run, actions, n);
  }

  lemma GrowsOn(s: State, t: State, u: State)
    requires Grows(s, t) && Grows(t, u)
    ensures Grows(s, u)
  {
    forall id | id in s.history ensures s.history[id] <= u.history[id] {
      assert s.history[id] <= t.history[id] <= u.history[id];
    }
  }

  lemma RunGrows(run: seq<State>, actions: seq<Action>, n: nat)
    requires IsRun(run, actions) && n < |actions|
    ensures Grows(run[n], run[n + 1])
  {
    StepGrows(run[n], actions[n]);
  }

  ghost predicate Growing(run: seq<State>) {
    forall i, j :: 0 <= i < j < |run| && j == i + 1 ==> Grows(run[i], run[j])
  }

  lemma {:induction false} GrowsAlong(run: seq<State>, i: nat, n: nat)
    requires Growing(run) && i <= n < |run|
    ensures Grows(run[i], run[n])
    decreases n - i
  {
    if i < n {
      GrowsAlong(run, i, n - 1);
      GrowsOn(run[i], run[n - 1], run[n]);
    }
  }

  /** A version once committed stays in the record of every later state, and a deleted id stays deleted. */
  lemma HistoryOnlyGrows(run: seq<State>, actions: seq<Action>, i: nat, n: nat)
    requires IsRun(run, actions) && i <= n < |run|
    ensures Grows(run[i], run[n])
  {
    forall k, j | 0 <= k < j < |run| && j == k + 1 ensures Grows(run[k], run[j]) { RunGrows(run, actions, k); }
    GrowsAlong(run, i, n);
  }

  // Delete reads and removes in two calls; a commit between them is not seen.

  /** The step commits a value for this id. */
  predicate Writes(s: State, a: Action, id: string)
    requires Enabled(s, a)
  {
    (a.CreatePut? || a.UpdatePut?) && Commits(s, a) && ContentStore.TargetOf(CallOf(s, a)) == id
  }

  lemma WriteAddsCommit(s: State, a: Action, id: string)
    requires Enabled(s, a)
    ensures |CommitsOf(Next(s, a), id)| == |CommitsOf(s, id)| + if Writes(s, a, id) then 1 else 0
  {
  }

  /** The steps from `i` up to `n` commit something for this id. */
  predicate WrittenBetween(run: seq<State>, actions: seq<Action>, id: string, i: nat, n: nat)
    requires |run| == |actions| + 1 && i <= n <= |actions|
    requires forall k :: i <= k < n ==> Enabled(run[k], actions[k])
  {
    exists k :: i <= k < n && Writes(run[k], actions[k], id)
  }

  lemma RunStep(run: seq<State>, actions: seq<Action>, k: nat, id: string)
    requires IsRun(run, actions) && k < |actions|
    ensures Enabled(run[k], actions[k])
    ensures |CommitsOf(run[k + 1], id)| == |CommitsOf(run[k], id)| + if Writes(run[k], actions[k], id) then 1 else 0
    ensures forall c :: c != actions[k].c && c in run[k].clients ==> c in run[k + 1].clients && run[k + 1].clients[c] == run[k].clients[c]
  {
    WriteAddsCommit(run[k], actions[k], id);
  }

  lemma {:induction false} CountAlong(counts: seq<nat>, writes: seq<bool>, i: nat, n: nat)
    requires |counts| == |writes| + 1 && i <= n <= |writes|
    requires forall k :: 0 <= k < |writes| ==> counts[k + 1] == counts[k] + if writes[k] then 1 else 0
    ensures counts[i] <= counts[n] && (counts[i] == counts[n] <==> forall k :: i <= k < n ==> !writes[k])
    decreases n - i
  {
    if i < n { CountAlong(counts, writes, i, n - 1); }
  }

  lemma CommitsCount(run: seq<State>, actions: seq<Action>, id: string, i: nat, n: nat)
    requires IsRun(run, actions) && i <= n <= |actions|
    ensures |CommitsOf(run[i], id)| == |CommitsOf(run[n], id)| <==> !WrittenBetween(run, actions, id, i, n)
  {
    var counts := seq(|run|, k requires 0 <= k < |run| => |CommitsOf(run[k], id)|);
    var writes := seq(|actions|, k requires 0 <= k < |actions| && Enabled(run[k], actions[k]) => Writes(run[k], actions[k], id));
    forall k | 0 <= k < |actions| ensures counts[k + 1] == counts[k] + if writes[k] then 1 else 0 {
      RunStep(run, actions, k, id);
    }
    CountAlong(counts, writes, i, n);
    assert forall k :: i <= k < n ==> writes[k] == Writes(run[k], actions[k], id);
  }

  lemma {:induction false} ClientAlong(run: seq<State>, c: nat, client: Client, i: nat, n: nat)
    requires i <= n < |run| && c in run[i].clients && run[i].clients[c] == client
    requires forall k :: i <= k < n && c in run[k].clients ==> c in run[k + 1].clients && run[k + 1].clients[c] == run[k].clients[c]
    ensures c in run[n].clients && run[n].clients[c] == client
    decreases n - i
  {
    if i < n { ClientAlong(run, c, client, i, n - 1); }
  }

  lemma DeleterWaits(run: seq<State>, actions: seq<Action>, c: nat, i: nat, n: nat)
    requires IsRun(run, actions) && i < n <= |actions| && actions[i].DeleteRead? && actions[i].c == c
    requires forall k :: i < k < n ==> actions[k].c != c
    ensures c in run[n].clients && run[n].clients[c] == Deleting(actions[i].id, ReadRow(run[i], actions[i].id))
  {
    var client := Deleting(actions[i].id, ReadRow(run[i], actions[i].id));
    assert c in run[i + 1].clients && run[i + 1].clients[c] == client;
    forall k | i + 1 <= k < n && c in run[k].clients
      ensures c in run[k + 1].clients && run[k + 1].clients[c] == run[k].clients[c]
    {
      RunStep(run, actions, k, "");
    }
    ClientAlong(run, c, client, i + 1, n);
  }

  lemma StoredIsLastCommit(s: State, id: string)
    requires Inv(s) && id in s.rows
    ensures id in s.history && s.rows[id].version == |s.history[id]| > 0
    ensures s.rows[id] == s.history[id][|s.history[id]| - 1].row
  {
    assert Chain(id, s.history[id]);
  }

  lemma ReadIsStoredIff(before: State, now: State, id: string)
    requires Inv(before) && Inv(now) && Grows(before, now) && id in now.rows
    ensures ReadRow(before, id) == Row(now.rows[id]) <==> |CommitsOf(before, id)| == |CommitsOf(now, id)|
  {
    StoredIsLastCommit(now, id);
    if id in before.rows { StoredIsLastCommit(before, id); }
  }

  /**
    Delete removes the links of the row that was stored if and only if no create or update of the id committed
    between its read and its delete.
   */
  lemma DeleteDropsWhatWasStoredIff(run: seq<State>, actions: seq<Action>, c: nat, i: nat, n: nat)
    requires IsRun(run, actions) && i < n < |actions|
    requires actions[i].DeleteRead? && actions[i].c == c && actions[n] == DeletePut(c)
    requires forall k :: i < k < n ==> actions[k].c != c
    requires actions[i].id in run[n].rows
    ensures
      var id := actions[i].id;
      && run[n + 1].clients[c] == Continue(AllDrops(id, ReadRow(run[i], id)))
      && (ReadRow(run[i], id) == Row(run[n].rows[id]) <==> !WrittenBetween(run, actions, id, i, n))
  {
    var id := actions[i].id;
    DeleterWaits(run, actions, c, i, n);
    CommitsCount(run, actions, id, i, n);
    RunKeepsInv(run, actions, i);
    RunKeepsInv(run, actions, n);
    HistoryOnlyGrows(run, actions, i, n);
    ReadIsStoredIff(run[i], run[n], id);
    assert Enabled(run[n], actions[n]) && run[n + 1] == Next(run[n], actions[n]);
  }
}
