/**
 * The score cache: for each line the score received last and the score sent last. Scores are reals here.
 * Every turn under the lock is one step, so updates may come between the lines of one fetch.
 */
module DeltaCache {
  datatype Item = Item(inited: bool, lastRecv: real, lastSend: real)

  type Cache = map<string, Item>

  datatype Op = Update(line: string, score: real) | Fetch(line: string, changed: bool)

  /** What a fetch hands out for a line: the current score in full, or the change since the last one sent. */
  function Delta(c: Cache, line: string, changed: bool): real
  {
    if line !in c then 0.0 else if changed then c[line].lastRecv else c[line].lastRecv - c[line].lastSend
  }

  function Apply(op: Op, c: Cache): Cache
  {
    match op
    case Update(line, score) =>
      if line !in c then c[line := Item(false, score, 0.0)]
      else c[line := c[line].(inited := true, lastRecv := score)]
    case Fetch(line, changed) =>
      if line !in c || changed then c else c[line := c[line].(lastSend := c[line].lastRecv)]
  }

  function After(c: Cache, ops: seq<Op>): Cache
  {
    if ops == [] then c else Apply(ops[|ops| - 1], After(c, ops[..|ops| - 1]))
  }

  function LastSend(c: Cache, line: string): real { if line in c then c[line].lastSend else 0.0 }

  /** The sum of all changes handed out for a line by incremental fetches. */
  function Handed(c: Cache, ops: seq<Op>, line: string): real
  {
    if ops == [] then 0.0 else
      var front, op := ops[..|ops| - 1], ops[|ops| - 1];
      Handed(c, front, line) + if op == Fetch(line, false) then Delta(After(c, front), line, false) else 0.0
  }

  /** The score of a line: what it was updated to last, 0 if never. */
  function Score(ops: seq<Op>, line: string): real
  {
    if ops == [] then 0.0 else
      var front, op := ops[..|ops| - 1], ops[|ops| - 1];
      if op.Update? && op.line == line then op.score else Score(front, line)
  }

  /** The score of a line at its latest incremental fetch, 0 if there was none. */
  function ScoreAtLatestFetch(ops: seq<Op>, line: string): real
  {
    if ops == [] then 0.0 else
      var front, op := ops[..|ops| - 1], ops[|ops| - 1];
      if op == Fetch(line, false) then Score(front, line) else ScoreAtLatestFetch(front, line)
  }

  function Updates(ops: seq<Op>, line: string): nat
  {
    if ops == [] then 0 else
      Updates(ops[..|ops| - 1], line) + if ops[|ops| - 1].Update? && ops[|ops| - 1].line == line then 1 else 0
  }

  /** What the cache knows of a line after any interleaving of updates and fetches. */
  lemma {:induction false} CacheIsHistory(ops: seq<Op>, line: string)
    ensures var c := After(map[], ops);
            && (line in c <==> Updates(ops, line) > 0)
            && (line in c ==> c[line] == Item(Updates(ops, line) > 1, Score(ops, line), ScoreAtLatestFetch(ops, line)))
            && (line !in c ==> Score(ops, line) == 0.0 && ScoreAtLatestFetch(ops, line) == 0.0)
  {
    if ops != [] {
      CacheIsHistory(ops[..|ops| - 1], line);
    }
  }

  /** Full fetches change nothing, and incremental ones leave every other line alone. */
  lemma FetchDisturbs(c: Cache, line: string, changed: bool, other: string)
    ensures changed ==> Apply(Fetch(line, changed), c) == c
    ensures other != line && other in c ==> other in Apply(Fetch(line, changed), c)
                                            && Apply(Fetch(line, changed), c)[other] == c[other]
  {
  }

  /** The changes handed out for a line add up to the difference of what was sent last. */
  lemma {:induction false} Telescopes(c: Cache, ops: seq<Op>, line: string)
    ensures Handed(c, ops, line) == LastSend(After(c, ops), line) - LastSend(c, line)
  {
    if ops != [] {
      Telescopes(c, ops[..|ops| - 1], line);
    }
  }

  /** From the start: they add up to the score at the latest incremental fetch. */
  lemma HandedIsScore(ops: seq<Op>, line: string)
    ensures Handed(map[], ops, line) == ScoreAtLatestFetch(ops, line)
  {
    Telescopes(map[], ops, line);
    CacheIsHistory(ops, line);
  }

  predicate Ready(c: Cache) { c != map[] && forall line :: line in c ==> c[line].inited }

  predicate Inserted(ops: seq<Op>, line: string) { Updates(ops, line) > 0 }

  predicate UpdatedAgain(ops: seq<Op>, line: string) { Updates(ops, line) > 1 }

  /** Ready exactly if there are lines, and every one was updated again after it was inserted. */
  lemma ReadyIff(ops: seq<Op>)
    ensures Ready(After(map[], ops))
            <==> (exists line :: Inserted(ops, line)) && forall line :: Inserted(ops, line) ==> UpdatedAgain(ops, line)
  {
    var c := After(map[], ops);
    forall line
      ensures line in c <==> Inserted(ops, line)
      ensures line in c ==> (c[line].inited <==> UpdatedAgain(ops, line))
    {
      CacheIsHistory(ops, line);
    }
    if c != map[] {
      var line :| line in c;
      assert Inserted(ops, line);
    }
    if line :| Inserted(ops, line) {
      assert line in c;
    }
  }

  /** Only a new line ends being ready. */
  lemma StaysReady(c: Cache, op: Op)
    requires Ready(c)
    ensures Ready(Apply(op, c)) <==> !(op.Update? && op.line !in c)
  {
    var d := Apply(op, c);
    if op.line in c {
      assert op.line in d;
    } else if op.Update? {
      assert !d[op.line].inited;
    }
  }

  /** A fetch of several lines; what other threads do before each of its turns is given. */
  function Turns(c: Cache, lines: seq<string>, between: seq<seq<Op>>, changed: bool): (r: (Cache, map<string, real>))
    requires |between| == |lines|
  {
    if lines == [] then (c, map[]) else
      var n := |lines| - 1;
      var (before, deltas) := Turns(c, lines[..n], between[..n], changed);
      var now := After(before, between[n]);
      (Apply(Fetch(lines[n], changed), now),
       if lines[n] in now then deltas[lines[n] := Delta(now, lines[n], changed)] else deltas)
  }

  function Returned(deltas: map<string, real>, line: string): real { if line in deltas then deltas[line] else 0.0 }

  function Occurrences(lines: seq<string>, line: string): nat
  {
    if lines == [] then 0 else Occurrences(lines[..|lines| - 1], line) + if lines[|lines| - 1] == line then 1 else 0
  }

  /** The steps of a fetch and of the others, in the order in which they happen. */
  function Steps(lines: seq<string>, between: seq<seq<Op>>, changed: bool): seq<Op>
    requires |between| == |lines|
  {
    if lines == [] then [] else
      var n := |lines| - 1;
      Steps(lines[..n], between[..n], changed) + between[n] + [Fetch(lines[n], changed)]
  }

  /** What the turns of this fetch hand out for a line, in all. */
  function HandedByTurns(c: Cache, lines: seq<string>, between: seq<seq<Op>>, changed: bool, line: string): real
    requires |between| == |lines|
  {
    if lines == [] then 0.0 else
      var n := |lines| - 1;
      HandedByTurns(c, lines[..n], between[..n], changed, line)
      + if lines[n] == line then Delta(After(Turns(c, lines[..n], between[..n], changed).0, between[n]), line, changed)
        else 0.0
  }

  lemma {:induction false} AfterConcat(c: Cache, a: seq<Op>, b: seq<Op>)
    ensures After(c, a + b) == After(After(c, a), b)
  {
    if b == [] {
      assert a + b == a;
    } else {
      assert (a + b)[..|a + b| - 1] == a + b[..|b| - 1];
      AfterConcat(c, a, b[..|b| - 1]);
    }
  }

  /** A fetch does the same to the cache as its steps among those of the others. */
  lemma {:induction false} TurnsAreSteps(c: Cache, lines: seq<string>, between: seq<seq<Op>>, changed: bool)
    requires |between| == |lines|
    ensures Turns(c, lines, between, changed).0 == After(c, Steps(lines, between, changed))
  {
    if lines != [] {
      var n := |lines| - 1;
      TurnsAreSteps(c, lines[..n], between[..n], changed);
      var front, last := Steps(lines[..n], between[..n], changed), Fetch(lines[n], changed);
      AfterConcat(c, front, between[n]);
      assert (front + between[n] + [last])[..|front + between[n]|] == front + between[n];
    }
  }

  /** A line that is not repeated in the request gets all that was handed out for it. */
  lemma {:induction false} ReturnedIsHanded(c: Cache, lines: seq<string>, between: seq<seq<Op>>, changed: bool,
                                            line: string)
    requires |between| == |lines| && Occurrences(lines, line) <= 1
    ensures Returned(Turns(c, lines, between, changed).1, line) == HandedByTurns(c, lines, between, changed, line)
  {
    if lines != [] {
      var n := |lines| - 1;
      if lines[n] == line { NotHanded(c, lines[..n], between[..n], changed, line); }
      if lines[n] != line { ReturnedIsHanded(c, lines[..n], between[..n], changed, line); }
    }
  }

  lemma {:induction false} NotHanded(c: Cache, lines: seq<string>, between: seq<seq<Op>>, changed: bool, line: string)
    requires |between| == |lines| && Occurrences(lines, line) == 0
    ensures line !in Turns(c, lines, between, changed).1 && HandedByTurns(c, lines, between, changed, line) == 0.0
  {
    if lines != [] {
      NotHanded(c, lines[..|lines| - 1], between[..|lines| - 1], changed, line);
    }
  }

  /** Where a line stands last in a request. */
  function LastTurn(lines: seq<string>, line: string): (p: nat)
    requires Occurrences(lines, line) > 0
    ensures p < |lines| && lines[p] == line
  {
    if lines[|lines| - 1] == line then |lines| - 1 else LastTurn(lines[..|lines| - 1], line)
  }

  lemma {:induction false} LinesStay(c: Cache, ops: seq<Op>)
    ensures c.Keys <= After(c, ops).Keys
  {
    if ops != [] { LinesStay(c, ops[..|ops| - 1]); }
  }

  /** Only lines in the cache are returned. */
  lemma {:induction false} ReturnedAreKnown(c: Cache, lines: seq<string>, between: seq<seq<Op>>, changed: bool)
    requires |between| == |lines|
    ensures Turns(c, lines, between, changed).1.Keys <= Turns(c, lines, between, changed).0.Keys
  {
    if lines != [] {
      var n := |lines| - 1;
      ReturnedAreKnown(c, lines[..n], between[..n], changed);
      LinesStay(Turns(c, lines[..n], between[..n], changed).0, between[n]);
    }
  }

  /** A request returns what the last turn of a line hands out, and not what was handed out before. */
  lemma {:induction false} ReturnedIsLastTurn(c: Cache, lines: seq<string>, between: seq<seq<Op>>, changed: bool,
                                              line: string)
    requires |between| == |lines| && Occurrences(lines, line) > 0
    ensures var p := LastTurn(lines, line);
            HandedByTurns(c, lines, between, changed, line)
            == HandedByTurns(c, lines[..p], between[..p], changed, line)
               + Returned(Turns(c, lines, between, changed).1, line)
  {
    var n := |lines| - 1;
    if lines[n] == line {
      ReturnedAreKnown(c, lines[..n], between[..n], changed);
      LinesStay(Turns(c, lines[..n], between[..n], changed).0, between[n]);
    } else {
      ReturnedIsLastTurn(c, lines[..n], between[..n], changed, line);
      var p := LastTurn(lines, line);
      assert lines[..n][..p] == lines[..p] && between[..n][..p] == between[..p];
    }
  }

  /** All that has happened before the p-th turn of a fetch. */
  function History(ops: seq<Op>, lines: seq<string>, between: seq<seq<Op>>, changed: bool, p: nat): seq<Op>
    requires |between| == |lines| && p < |lines|
  {
    ops + Steps(lines[..p], between[..p], changed) + between[p]
  }

  lemma TurnSees(ops: seq<Op>, lines: seq<string>, between: seq<seq<Op>>, changed: bool, p: nat)
    requires |between| == |lines| && p < |lines|
    ensures After(Turns(After(map[], ops), lines[..p], between[..p], changed).0, between[p])
            == After(map[], History(ops, lines, between, changed, p))
  {
    var c, front := After(map[], ops), Steps(lines[..p], between[..p], changed);
    TurnsAreSteps(c, lines[..p], between[..p], changed);
    AfterConcat(map[], ops, front);
    AfterConcat(map[], ops + front, between[p]);
  }

  /**
   * A line is returned exactly if it was asked for and updated before its last turn: its score at that time in
   * full, or less the score at its latest incremental fetch before, whatever the others did meanwhile.
   */
  lemma {:induction false} ReturnedIsScore(ops: seq<Op>, lines: seq<string>, between: seq<seq<Op>>, changed: bool,
                                           line: string)
    requires |between| == |lines|
    ensures var deltas := Turns(After(map[], ops), lines, between, changed).1;
            if Occurrences(lines, line) == 0 then line !in deltas
            else
              var h := History(ops, lines, between, changed, LastTurn(lines, line));
              && (line in deltas <==> Updates(h, line) > 0)
              && (line in deltas ==>
                    deltas[line] == if changed then Score(h, line) else Score(h, line) - ScoreAtLatestFetch(h, line))
  {
    if lines != [] {
      var n, c := |lines| - 1, After(map[], ops);
      if lines[n] == line {
        ReturnedAreKnown(c, lines[..n], between[..n], changed);
        LinesStay(Turns(c, lines[..n], between[..n], changed).0, between[n]);
        TurnSees(ops, lines, between, changed, n);
        CacheIsHistory(History(ops, lines, between, changed, n), line);
      } else {
        ReturnedIsScore(ops, lines[..n], between[..n], changed, line);
        if Occurrences(lines, line) > 0 {
          var p := LastTurn(lines, line);
          assert lines[..n][..p] == lines[..p] && between[..n][..p] == between[..p];
        }
      }
    }
  }

  /** The others may update the line and fetch it in full, but do not take its changes. */
  predicate OthersLeaveChanges(between: seq<seq<Op>>, line: string)
  {
    forall i :: 0 <= i < |between| ==> Fetch(line, false) !in between[i]
  }

  lemma {:induction false} SentStays(c: Cache, ops: seq<Op>, line: string)
    requires Fetch(line, false) !in ops
    ensures LastSend(After(c, ops), line) == LastSend(c, line)
  {
    if ops != [] {
      assert ops[|ops| - 1] in ops;
      SentStays(c, ops[..|ops| - 1], line);
    }
  }

  /** The turns of one fetch telescope on their own then. */
  lemma {:induction false} TurnsTelescope(c: Cache, lines: seq<string>, between: seq<seq<Op>>, line: string)
    requires |between| == |lines| && OthersLeaveChanges(between, line)
    ensures HandedByTurns(c, lines, between, false, line)
            == LastSend(Turns(c, lines, between, false).0, line) - LastSend(c, line)
  {
    if lines != [] {
      var n := |lines| - 1;
      TurnsTelescope(c, lines[..n], between[..n], line);
      SentStays(Turns(c, lines[..n], between[..n], false).0, between[n], line);
    }
  }

  /**
   * Among the updates of others a repeated line is returned all that was handed out for it exactly if at its
   * turn before the last the score sent was the one that had been sent before the request.
   */
  lemma RepeatedLineAmongUpdates(c: Cache, lines: seq<string>, between: seq<seq<Op>>, line: string)
    requires |between| == |lines| && Occurrences(lines, line) > 0 && OthersLeaveChanges(between, line)
    ensures var p := LastTurn(lines, line);
            Returned(Turns(c, lines, between, false).1, line) == HandedByTurns(c, lines, between, false, line)
            <==> LastSend(Turns(c, lines[..p], between[..p], false).0, line) == LastSend(c, line)
  {
    var p := LastTurn(lines, line);
    ReturnedIsLastTurn(c, lines, between, false, line);
    TurnsTelescope(c, lines[..p], between[..p], line);
  }

  function Alone(n: nat): seq<seq<Op>> { seq(n, _ => []) }

  /** A fetch that nothing interrupts. */
  function FetchAlone(c: Cache, lines: seq<string>, changed: bool): (Cache, map<string, real>)
  {
    Turns(c, lines, Alone(|lines|), changed)
  }

  lemma FetchAloneSnoc(c: Cache, lines: seq<string>, changed: bool)
    requires lines != []
    ensures var n := |lines| - 1;
            var (before, deltas) := FetchAlone(c, lines[..n], changed);
            FetchAlone(c, lines, changed)
            == (Apply(Fetch(lines[n], changed), before),
                if lines[n] in before then deltas[lines[n] := Delta(before, lines[n], changed)] else deltas)
  {
    var n := |lines| - 1;
    assert Alone(n + 1)[..n] == Alone(n) && Alone(n + 1)[n] == [];
  }

  lemma {:induction false} FetchesLeaveScores(ops: seq<Op>, lines: seq<string>, changed: bool, line: string)
    ensures var h := ops + Steps(lines, Alone(|lines|), changed);
            Updates(h, line) == Updates(ops, line) && Score(h, line) == Score(ops, line)
  {
    if lines == [] {
      assert ops + [] == ops;
    } else {
      var n := |lines| - 1;
      var front, last := Steps(lines[..n], Alone(n), changed), Fetch(lines[n], changed);
      FetchesLeaveScores(ops, lines[..n], changed, line);
      assert Alone(n + 1)[..n] == Alone(n) && Alone(n + 1)[n] == [];
      assert ops + (front + [] + [last]) == (ops + front) + [last];
      assert ((ops + front) + [last])[..|ops + front|] == ops + front;
    }
  }

  /** A full fetch that nothing interrupts returns the score of every line asked for that was ever updated. */
  lemma FullFetchIsScores(ops: seq<Op>, lines: seq<string>, line: string)
    ensures var deltas := FetchAlone(After(map[], ops), lines, true).1;
            && (line in deltas <==> line in lines && Updates(ops, line) > 0)
            && (line in deltas ==> deltas[line] == Score(ops, line))
  {
    ReturnedIsScore(ops, lines, Alone(|lines|), true, line);
    OccursIff(lines, line);
    if line in lines {
      var p := LastTurn(lines, line);
      FetchesLeaveScores(ops, lines[..p], true, line);
      assert Alone(|lines|)[..p] == Alone(p) && Alone(|lines|)[p] == [];
      assert History(ops, lines, Alone(|lines|), true, p) == ops + Steps(lines[..p], Alone(p), true);
    }
  }

  lemma {:induction false} OccursIff(lines: seq<string>, line: string)
    ensures Occurrences(lines, line) > 0 <==> line in lines
  {
    if lines != [] {
      OccursIff(lines[..|lines| - 1], line);
      assert lines == lines[..|lines| - 1] + [lines[|lines| - 1]];
    }
  }

  /** A line after a fetch that nothing interrupts: its change is handed out at its first turn, then nothing is left. */
  lemma {:induction false} FetchedLine(c: Cache, lines: seq<string>, line: string)
    requires line in c
    ensures var (after, deltas) := FetchAlone(c, lines, false);
            && line in after && after[line].lastRecv == c[line].lastRecv
            && after[line].lastSend == (if Occurrences(lines, line) == 0 then c[line].lastSend else c[line].lastRecv)
            && (line in deltas <==> Occurrences(lines, line) > 0)
            && (Occurrences(lines, line) == 1 ==> deltas[line] == Delta(c, line, false))
            && (Occurrences(lines, line) > 1 ==> deltas[line] == 0.0)
  {
    if lines != [] {
      FetchedLine(c, lines[..|lines| - 1], line);
      FetchAloneSnoc(c, lines, false);
    }
  }

  /** A request gets the whole change of a line exactly if the line is not repeated, or there is no change. */
  lemma RepeatedLineLosesChange(c: Cache, lines: seq<string>, line: string)
    requires line in c && Occurrences(lines, line) > 0
    ensures Returned(FetchAlone(c, lines, false).1, line) == Delta(c, line, false)
            <==> Occurrences(lines, line) == 1 || Delta(c, line, false) == 0.0
  {
    FetchedLine(c, lines, line);
  }

  /** For example, a line asked for twice after its first score: the score is never returned. */
  lemma RepeatedLineExample()
    ensures var c := After(map[], [Update("football", 1.5)]);
            var (after, deltas) := FetchAlone(c, ["football", "football"], false);
            deltas == map["football" := 0.0] && LastSend(after, "football") == 1.5
  {
    var ops := [Update("football", 1.5)];
    assert ops[..0] == [];
    var c := After(map[], ops);
    assert c == map["football" := Item(false, 1.5, 0.0)];
    var once, twice := ["football"], ["football", "football"];
    assert twice[..1] == once && once[..0] == [];
    FetchAloneSnoc(c, once, false);
    FetchAloneSnoc(c, twice, false);
  }

  class LinesCache {
    var cache: Cache

    constructor ()
      ensures cache == map[]
    {
      cache := map[];
    }

    method UpdateCache(sport: string, score: real)
      modifies this
      ensures cache == Apply(Update(sport, score), old(cache))
    {
      if sport !in cache {
        cache := cache[sport := Item(false, score, 0.0)];
      } else {
        cache := cache[sport := cache[sport].(inited := true)];
        cache := cache[sport := cache[sport].(lastRecv := score)];
      }
    }

    method FetchDelta(lines: seq<string>, changed: bool) returns (deltas: map<string, real>)
      modifies this
      ensures (cache, deltas) == FetchAlone(old(cache), lines, changed)
    {
      deltas := map[];
      assert lines[..|lines|] == lines;
      for i := 0 to |lines|
        invariant (cache, deltas) == FetchAlone(old(cache), lines[..i], changed)
      {
        var l := lines[i];
        FetchAloneSnoc(old(cache), lines[..i + 1], changed);
        assert lines[..i + 1][..i] == lines[..i];
        if l in cache {
          if !changed {
            deltas := deltas[l := cache[l].lastRecv - cache[l].lastSend];
            cache := cache[l := cache[l].(lastSend := cache[l].lastRecv)];
          } else {
            deltas := deltas[l := cache[l].lastRecv];
          }
        }
      }
    }

    /** Counts the lines that were updated after insertion. */
    method State() returns (ready: bool)
      ensures ready <==> Ready(cache)
    {
      var inited, left := 0, cache.Keys;
      while left != {}
        invariant left <= cache.Keys && inited + |left| <= |cache.Keys|
        invariant inited + |left| == |cache.Keys|
                  <==> forall line :: line in cache && line !in left ==> cache[line].inited
        invariant inited <= |cache.Keys| - |left|
        decreases |left|
      {
        var line :| line in left;
        if cache[line].inited { inited := inited + 1; }
        left := left - {line};
      }
      ready := inited != 0 && inited == |cache|;
    }
  }
}
