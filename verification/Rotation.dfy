/** A log file that is rotated by renaming: base file, base.1, base.2 and so on, the oldest is overwritten. */
module Rotation {
  import opened Decimal
  import opened Options

  predicate IsSeparator(c: char) { c == '/' }

  /** One past the last place that holds the character; 0 when there is none. */
  function AfterLast(s: string, p: char -> bool): (r: nat)
    ensures r <= |s| && (r > 0 ==> p(s[r - 1])) && forall i :: r <= i < |s| ==> !p(s[i])
  {
    if s == [] then 0 else if p(s[|s| - 1]) then |s| else AfterLast(s[..|s| - 1], p)
  }

  /** A nonempty name, and after it an extension: a dot, then at least one character and no other dot or separator. */
  predicate HasExtensionAt(name: string, e: nat)
  {
    && 0 < e < |name| - 1 && name[e] == '.' && name[e - 1] != '/'
    && forall i :: e < i < |name| ==> name[i] != '.' && name[i] != '/'
  }

  /** The path without its extension, and the extension with its dot. */
  function SplitByExtension(name: string): (string, string)
  {
    var afterDot, afterFolder := AfterLast(name, c => c == '.'), AfterLast(name, IsSeparator);
    if afterDot <= 1 || afterDot == |name| then (name, [])
    else if afterFolder != 0 && afterFolder >= afterDot - 1 then (name, [])
    else (name[..afterDot - 1], name[afterDot - 1..])
  }

  /** The extension is split off if and only if there is one; nothing else of the name changes. */
  lemma SplitIsExact(name: string)
    ensures var (base, ext) := SplitByExtension(name);
            && base + ext == name
            && (ext != [] <==> exists e :: HasExtensionAt(name, e))
            && (ext != [] ==> HasExtensionAt(name, |base|))
  {
    var afterDot, afterFolder := AfterLast(name, c => c == '.'), AfterLast(name, IsSeparator);
    var (base, ext) := SplitByExtension(name);
    if ext != [] {
      assert HasExtensionAt(name, |base|);
    }
    if e: nat :| HasExtensionAt(name, e) {
      assert afterDot == e + 1;
      assert afterFolder <= e;
    }
  }

  function CalcFilename(name: string, index: nat): string
  {
    if index == 0 then name else
      var (base, ext) := SplitByExtension(name);
      base + "." + DecText(index) + ext
  }

  /** The index stands in front of the extension, or after the whole name if there is none. */
  lemma NumberedName(name: string, index: nat)
    ensures CalcFilename(name, 0) == name
    ensures index > 0 ==> forall e: nat :: HasExtensionAt(name, e) ==>
              CalcFilename(name, index) == name[..e] + "." + DecText(index) + name[e..]
    ensures index > 0 && (forall e: nat :: !HasExtensionAt(name, e)) ==>
              CalcFilename(name, index) == name + "." + DecText(index)
  {
    SplitIsExact(name);
    var (base, ext) := SplitByExtension(name);
    forall e: nat | HasExtensionAt(name, e) ensures base == name[..e] && ext == name[e..] {
      assert HasExtensionAt(name, |base|);
      assert e == |base|;
    }
  }

  /** Different indexes give different names. */
  lemma CalcFilenameInjective(name: string, i: nat, j: nat)
    requires CalcFilename(name, i) == CalcFilename(name, j)
    ensures i == j
  {
    SplitIsExact(name);
    var (base, ext) := SplitByExtension(name);
    if i > 0 && j > 0 {
      assert CalcFilename(name, i) == base + "." + (DecText(i) + ext);
      SameMiddle(base + ".", DecText(i), DecText(j), ext);
      DecTextValue(i);
      DecTextValue(j);
    }
  }

  lemma SameMiddle(a: string, x: string, y: string, b: string)
    requires a + x + b == a + y + b
    ensures x == y
  {
    assert (a + x + b)[|a|..|a| + |x|] == x;
    assert (a + y + b)[|a|..|a| + |y|] == y;
  }

  lemma Differ(name: string, i: nat, j: nat)
    requires i != j
    ensures CalcFilename(name, i) != CalcFilename(name, j)
  {
    if CalcFilename(name, i) == CalcFilename(name, j) { CalcFilenameInjective(name, i, j); }
  }

  /** The directory: the text of every file. */
  type Files = map<string, string>

  function Lookup(fs: Files, name: string): Option<string> { if name in fs then Some(fs[name]) else None }

  function Moved(fs: Files, src: string, target: string): Files
  {
    if src in fs then (fs - {src})[target := fs[src]] else fs
  }

  /** Renames i - 1 to i, then i - 2 to i - 1, and so on. */
  function ShiftUp(fs: Files, name: string, i: nat): Files
    decreases i
  {
    if i == 0 then fs else ShiftUp(Moved(fs, CalcFilename(name, i - 1), CalcFilename(name, i)), name, i - 1)
  }

  /** What the file with index k holds after the renames. */
  function Shifted(fs: Files, name: string, i: nat, k: nat): Option<string>
    requires k <= i
  {
    if k == 0 then (if i == 0 then Lookup(fs, name) else None)
    else if CalcFilename(name, k - 1) in fs then Lookup(fs, CalcFilename(name, k - 1))
    else if k == i then Lookup(fs, CalcFilename(name, k))
    else None
  }

  lemma MovedFiles(fs: Files, src: string, target: string, other: string)
    requires src != target
    ensures Lookup(Moved(fs, src, target), src) == None
    ensures Lookup(Moved(fs, src, target), target) == if src in fs then Lookup(fs, src) else Lookup(fs, target)
    ensures other != src && other != target ==> Lookup(Moved(fs, src, target), other) == Lookup(fs, other)
  {
  }

  lemma {:induction false} ShiftUpIsShifted(fs: Files, name: string, i: nat, k: nat)
    requires k <= i
    ensures Lookup(ShiftUp(fs, name, i), CalcFilename(name, k)) == Shifted(fs, name, i, k)
    decreases i
  {
    if i > 0 {
      var src, target := CalcFilename(name, i - 1), CalcFilename(name, i);
      var next := Moved(fs, src, target);
      Differ(name, i - 1, i);
      MovedFiles(fs, src, target, CalcFilename(name, k));
      if k == i {
        ShiftUpKeeps(next, name, i - 1, CalcFilename(name, k), i);
      } else {
        ShiftUpIsShifted(next, name, i - 1, k);
        ShiftedStep(fs, name, i, k);
      }
    }
  }

  /**
   * Every file moves up by one, the base file too, and a gap moves with them; but the last file stays if there
   * is none to move there.
   */
  lemma ShiftUpFiles(fs: Files, name: string, i: nat, k: nat)
    requires 0 < k <= i
    ensures var after, from, to := ShiftUp(fs, name, i), CalcFilename(name, k - 1), CalcFilename(name, k);
            && name !in after
            && (from in fs ==> to in after && after[to] == fs[from])
            && (from !in fs ==> (to in after <==> k == i && to in fs))
            && (from !in fs && to in after ==> after[to] == fs[to])
  {
    ShiftUpIsShifted(fs, name, i, 0);
    ShiftUpIsShifted(fs, name, i, k);
  }

  /** After the first rename the others lead to the same. */
  lemma ShiftedStep(fs: Files, name: string, i: nat, k: nat)
    requires k < i
    ensures var next := Moved(fs, CalcFilename(name, i - 1), CalcFilename(name, i));
            Shifted(next, name, i - 1, k) == Shifted(fs, name, i, k)
  {
    var src, target := CalcFilename(name, i - 1), CalcFilename(name, i);
    Differ(name, i - 1, i);
    if k > 0 {
      Differ(name, k - 1, i);
      Differ(name, k - 1, i - 1);
      MovedFiles(fs, src, target, CalcFilename(name, k - 1));
    }
  }

  predicate Rotates(name: string, i: nat, other: string) { exists k: nat :: k <= i && other == CalcFilename(name, k) }

  /** No other file is touched. */
  lemma {:induction false} ShiftUpKeeps(fs: Files, name: string, i: nat, other: string, k: nat)
    requires other == CalcFilename(name, k) && k > i
    ensures Lookup(ShiftUp(fs, name, i), other) == Lookup(fs, other)
    decreases i
  {
    if i > 0 {
      var src, target := CalcFilename(name, i - 1), CalcFilename(name, i);
      Differ(name, i - 1, i);
      Differ(name, i, k);
      Differ(name, i - 1, k);
      MovedFiles(fs, src, target, other);
      ShiftUpKeeps(Moved(fs, src, target), name, i - 1, other, k);
    }
  }

  lemma {:induction false} ShiftUpKeepsOthers(fs: Files, name: string, i: nat, other: string)
    requires !Rotates(name, i, other)
    ensures Lookup(ShiftUp(fs, name, i), other) == Lookup(fs, other)
    decreases i
  {
    if i > 0 {
      var src, target := CalcFilename(name, i - 1), CalcFilename(name, i);
      Differ(name, i - 1, i);
      assert other != src && other != target && !Rotates(name, i - 1, other);
      MovedFiles(fs, src, target, other);
      ShiftUpKeepsOthers(Moved(fs, src, target), name, i - 1, other);
    }
  }

  /** A whole rotation that no rename disturbs. */
  function Rotated(fs: Files, name: string, maxFiles: nat): Files { ShiftUp(fs, name, maxFiles)[name := ""] }

  /** The directory and the sink's idea of the base file's size. */
  datatype State = State(fs: Files, size: nat)

  function Append(fs: Files, name: string, text: string): Files
  {
    fs[name := (if name in fs then fs[name] else "") + text]
  }

  /** What logging one message does when no rename fails. */
  function Logged(s: State, name: string, maxSize: nat, maxFiles: nat, msg: string): State
  {
    if s.size + |msg| > maxSize then State(Append(Rotated(s.fs, name, maxFiles), name, msg), |msg|)
    else State(Append(s.fs, name, msg), s.size + |msg|)
  }

  function LogAll(s: State, name: string, maxSize: nat, maxFiles: nat, msgs: seq<string>): State
    decreases |msgs|
  {
    if msgs == [] then s
    else Logged(LogAll(s, name, maxSize, maxFiles, msgs[..|msgs| - 1]), name, maxSize, maxFiles, msgs[|msgs| - 1])
  }

  function Flatten(msgs: seq<string>): string
  {
    if msgs == [] then "" else Flatten(msgs[..|msgs| - 1]) + msgs[|msgs| - 1]
  }

  lemma {:induction false} FlattenConcat(a: seq<string>, b: seq<string>)
    ensures Flatten(a + b) == Flatten(a) + Flatten(b)
  {
    if b == [] {
      assert a + b == a;
    } else {
      var c, front, last := a + b, b[..|b| - 1], b[|b| - 1];
      assert c[..|c| - 1] == a + front && c[|c| - 1] == last;
      FlattenConcat(a, front);
      assert (Flatten(a) + Flatten(front)) + last == Flatten(a) + (Flatten(front) + last);
    }
  }

  /** Messages of the files, the base file's first, in the order in which they were logged. */
  function InOrder(segments: seq<seq<string>>): seq<string>
  {
    if segments == [] then [] else InOrder(segments[1..]) + segments[0]
  }

  /** The base file and the rotated ones up to some index hold whole messages; the others do not exist. */
  predicate Holds(fs: Files, name: string, maxFiles: nat, segments: seq<seq<string>>)
  {
    && 1 <= |segments| <= maxFiles + 1
    && forall k: nat :: k <= maxFiles ==>
         Lookup(fs, CalcFilename(name, k)) == if k < |segments| then Some(Flatten(segments[k])) else None
  }

  /** The files, oldest first, as one text. */
  function ReadAll(fs: Files, name: string, k: nat): string
  {
    (if CalcFilename(name, k) in fs then fs[CalcFilename(name, k)] else "")
    + if k == 0 then "" else ReadAll(fs, name, k - 1)
  }

  predicate SmallOrSingle(segment: seq<string>, maxSize: nat) { |Flatten(segment)| <= maxSize || |segment| == 1 }

  predicate AllSmallOrSingle(segments: seq<seq<string>>, maxSize: nat)
  {
    forall k :: 0 <= k < |segments| ==> SmallOrSingle(segments[k], maxSize)
  }

  /** A rotation moves every segment one file further and opens an empty one. */
  lemma RotatedHolds(fs: Files, name: string, maxFiles: nat, segments: seq<seq<string>>)
    requires Holds(fs, name, maxFiles, segments)
    ensures Holds(Rotated(fs, name, maxFiles), name, maxFiles, AfterRotation(segments, maxFiles))
  {
    var after := AfterRotation(segments, maxFiles);
    forall k: nat | k <= maxFiles
      ensures Lookup(Rotated(fs, name, maxFiles), CalcFilename(name, k))
              == if k < |after| then Some(Flatten(after[k])) else None
    {
      RotatedHoldsAt(fs, name, maxFiles, segments, k);
    }
  }

  lemma RotatedHoldsAt(fs: Files, name: string, maxFiles: nat, segments: seq<seq<string>>, k: nat)
    requires Holds(fs, name, maxFiles, segments) && k <= maxFiles
    ensures var after := AfterRotation(segments, maxFiles);
            Lookup(Rotated(fs, name, maxFiles), CalcFilename(name, k))
            == if k < |after| then Some(Flatten(after[k])) else None
  {
    ShiftUpIsShifted(fs, name, maxFiles, k);
    AfterRotationAt(segments, maxFiles, k);
    if k > 0 {
      Differ(name, 0, k);
      assert Lookup(fs, CalcFilename(name, k - 1))
             == if k - 1 < |segments| then Some(Flatten(segments[k - 1])) else None;
    }
  }

  function AfterRotation(segments: seq<seq<string>>, maxFiles: nat): (r: seq<seq<string>>)
    requires 1 <= |segments| <= maxFiles + 1
    ensures 1 <= |r| <= maxFiles + 1
  {
    if |segments| <= maxFiles then [[]] + segments else [[]] + segments[..maxFiles]
  }

  lemma AfterRotationAt(segments: seq<seq<string>>, maxFiles: nat, k: nat)
    requires 1 <= |segments| <= maxFiles + 1 && k <= maxFiles
    ensures var after := AfterRotation(segments, maxFiles);
            && (k < |after| <==> k <= |segments|)
            && (k < |after| ==> after[k] == if k == 0 then [] else segments[k - 1])
  {
  }

  function AfterMessage(segments: seq<seq<string>>, msg: string): seq<seq<string>>
    requires segments != []
  {
    segments[0 := segments[0] + [msg]]
  }

  lemma AppendHolds(fs: Files, name: string, maxFiles: nat, segments: seq<seq<string>>, msg: string)
    requires Holds(fs, name, maxFiles, segments)
    ensures Holds(Append(fs, name, msg), name, maxFiles, AfterMessage(segments, msg))
  {
    var after := AfterMessage(segments, msg);
    assert CalcFilename(name, 0) == name;
    FlattenConcat(segments[0], [msg]);
    assert Flatten([msg]) == msg;
    forall k: nat | k <= maxFiles
      ensures Lookup(Append(fs, name, msg), CalcFilename(name, k))
              == if k < |after| then Some(Flatten(after[k])) else None
    {
      if k > 0 { Differ(name, 0, k); }
    }
  }

  /** The segments after one message. */
  function AfterLogged(s: State, maxSize: nat, maxFiles: nat, segments: seq<seq<string>>, msg: string): seq<seq<string>>
    requires 1 <= |segments| <= maxFiles + 1
  {
    if s.size + |msg| > maxSize then AfterMessage(AfterRotation(segments, maxFiles), msg)
    else AfterMessage(segments, msg)
  }

  lemma LoggedHolds(s: State, name: string, maxSize: nat, maxFiles: nat, segments: seq<seq<string>>, msg: string)
    requires Holds(s.fs, name, maxFiles, segments)
    ensures Holds(Logged(s, name, maxSize, maxFiles, msg).fs, name, maxFiles,
                  AfterLogged(s, maxSize, maxFiles, segments, msg))
  {
    if s.size + |msg| > maxSize {
      RotatedHolds(s.fs, name, maxFiles, segments);
      AppendHolds(Rotated(s.fs, name, maxFiles), name, maxFiles, AfterRotation(segments, maxFiles), msg);
    } else {
      AppendHolds(s.fs, name, maxFiles, segments, msg);
    }
  }

  predicate IsSuffix(a: seq<string>, b: seq<string>) { |a| <= |b| && a == b[|b| - |a|..] }

  lemma SuffixOf(c: seq<string>, a: seq<string>, b: seq<string>)
    requires b == c + a
    ensures IsSuffix(a, b)
  {
  }

  lemma SuffixGrows(a: seq<string>, b: seq<string>, c: seq<string>)
    requires IsSuffix(a, b)
    ensures IsSuffix(a + c, b + c)
  {
    assert b + c == b[..|b| - |a|] + (a + c);
    SuffixOf(b[..|b| - |a|], a + c, b + c);
  }

  lemma SuffixTransitive(a: seq<string>, b: seq<string>, c: seq<string>)
    requires IsSuffix(a, b) && IsSuffix(b, c)
    ensures IsSuffix(a, c)
  {
  }

  /** Forgetting the oldest segments leaves the newest messages. */
  lemma {:induction false} FirstSegments(segments: seq<seq<string>>, n: nat)
    requires n <= |segments|
    ensures IsSuffix(InOrder(segments[..n]), InOrder(segments))
  {
    if n > 0 {
      FirstSegments(segments[1..], n - 1);
      assert segments[..n][1..] == segments[1..][..n - 1];
      SuffixGrows(InOrder(segments[1..][..n - 1]), InOrder(segments[1..]), segments[0]);
    }
  }

  lemma AfterRotationInOrder(segments: seq<seq<string>>, maxFiles: nat)
    requires 1 <= |segments| <= maxFiles + 1
    ensures IsSuffix(InOrder(AfterRotation(segments, maxFiles)), InOrder(segments))
    ensures |segments| <= maxFiles ==> InOrder(AfterRotation(segments, maxFiles)) == InOrder(segments)
  {
    var kept := if |segments| <= maxFiles then segments else segments[..maxFiles];
    FirstSegments(segments, if |segments| <= maxFiles then |segments| else maxFiles);
    assert segments[..|segments|] == segments;
    assert ([[]] + kept)[1..] == kept;
    assert InOrder([[]] + kept) == InOrder(kept) + [];
  }

  lemma AfterMessageInOrder(segments: seq<seq<string>>, msg: string)
    requires segments != []
    ensures InOrder(AfterMessage(segments, msg)) == InOrder(segments) + [msg]
  {
    assert AfterMessage(segments, msg)[1..] == segments[1..];
  }

  /** What one message does to the order, the sizes and the number of files. */
  lemma AfterLoggedFacts(s: State, maxSize: nat, maxFiles: nat, segments: seq<seq<string>>, msg: string)
    requires 1 <= |segments| <= maxFiles + 1 && AllSmallOrSingle(segments, maxSize)
    requires |Flatten(segments[0])| <= s.size
    ensures var after := AfterLogged(s, maxSize, maxFiles, segments, msg);
            && 1 <= |after| <= maxFiles + 1 && |segments| <= |after| && AllSmallOrSingle(after, maxSize)
            && IsSuffix(InOrder(after), InOrder(segments) + [msg])
            && (|after| <= maxFiles ==> InOrder(after) == InOrder(segments) + [msg])
            && |Flatten(after[0])| == if s.size + |msg| > maxSize then |msg| else |Flatten(segments[0])| + |msg|
  {
    var rotated := s.size + |msg| > maxSize;
    var before := if rotated then AfterRotation(segments, maxFiles) else segments;
    AfterRotationInOrder(segments, maxFiles);
    AfterMessageInOrder(before, msg);
    SuffixGrows(InOrder(before), InOrder(segments), [msg]);
    if rotated {
      AfterRotationSizes(segments, maxFiles, maxSize);
    }
    AfterMessageSizes(before, maxSize, msg);
  }

  /** Only the first segment grows; it stays small if what it held leaves room, or held nothing. */
  lemma AfterMessageSizes(segments: seq<seq<string>>, maxSize: nat, msg: string)
    requires segments != [] && AllSmallOrSingle(segments, maxSize)
    requires segments[0] == [] || |Flatten(segments[0])| + |msg| <= maxSize
    ensures var after := AfterMessage(segments, msg);
            AllSmallOrSingle(after, maxSize) && |Flatten(after[0])| == |Flatten(segments[0])| + |msg|
  {
    var after := AfterMessage(segments, msg);
    FlattenConcat(segments[0], [msg]);
    assert Flatten([msg]) == msg;
    assert after[0] == segments[0] + [msg] && SmallOrSingle(after[0], maxSize);
    assert forall k :: 1 <= k < |after| ==> after[k] == segments[k] && SmallOrSingle(segments[k], maxSize);
  }

  lemma AfterRotationSizes(segments: seq<seq<string>>, maxFiles: nat, maxSize: nat)
    requires 1 <= |segments| <= maxFiles + 1 && AllSmallOrSingle(segments, maxSize)
    ensures AllSmallOrSingle(AfterRotation(segments, maxFiles), maxSize) && AfterRotation(segments, maxFiles)[0] == []
  {
    var after := AfterRotation(segments, maxFiles);
    assert SmallOrSingle([], maxSize);
    assert forall k :: 1 <= k < |after| ==> after[k] == segments[k - 1] && SmallOrSingle(segments[k - 1], maxSize);
  }

  /**
   * The files hold whole messages, and together, from the oldest to the base file, the end of all messages
   * logged; all of them as long as the last file is not used. Every file is at most the size limit or a
   * single message, and the sink knows the size of the base file, or at least does not underestimate it.
   */
  predicate Kept(s: State, name: string, maxSize: nat, maxFiles: nat, segments: seq<seq<string>>,
                 all: seq<string>, exact: bool)
  {
    && Holds(s.fs, name, maxFiles, segments) && AllSmallOrSingle(segments, maxSize)
    && |Flatten(segments[0])| <= s.size && (exact ==> |Flatten(segments[0])| == s.size)
    && IsSuffix(InOrder(segments), all) && (|segments| <= maxFiles ==> InOrder(segments) == all)
  }

  lemma LoggedKeeps(s: State, name: string, maxSize: nat, maxFiles: nat, segments: seq<seq<string>>,
                    all: seq<string>, exact: bool, msg: string)
    requires Kept(s, name, maxSize, maxFiles, segments, all, exact)
    ensures Kept(Logged(s, name, maxSize, maxFiles, msg), name, maxSize, maxFiles,
                 AfterLogged(s, maxSize, maxFiles, segments, msg), all + [msg], exact)
  {
    LoggedHolds(s, name, maxSize, maxFiles, segments, msg);
    AfterLoggedFacts(s, maxSize, maxFiles, segments, msg);
    var next := AfterLogged(s, maxSize, maxFiles, segments, msg);
    SuffixGrows(InOrder(segments), all, [msg]);
    SuffixTransitive(InOrder(next), InOrder(segments) + [msg], all + [msg]);
  }

  /** Whatever is logged, as long as no rename fails, the files are kept like that. */
  lemma {:induction false} LogAllKeeps(s: State, name: string, maxSize: nat, maxFiles: nat,
                                       segments: seq<seq<string>>, all: seq<string>, exact: bool, msgs: seq<string>)
    returns (after: seq<seq<string>>)
    requires Kept(s, name, maxSize, maxFiles, segments, all, exact)
    ensures Kept(LogAll(s, name, maxSize, maxFiles, msgs), name, maxSize, maxFiles, after, all + msgs, exact)
    decreases |msgs|
  {
    if msgs == [] {
      after := segments;
      assert all + msgs == all;
    } else {
      var n := |msgs| - 1;
      assert all + msgs == (all + msgs[..n]) + [msgs[n]];
      after := LogAllKeeps(s, name, maxSize, maxFiles, segments, all, exact, msgs[..n]);
      var t := LogAll(s, name, maxSize, maxFiles, msgs[..n]);
      LoggedKeeps(t, name, maxSize, maxFiles, after, all + msgs[..n], exact, msgs[n]);
      after := AfterLogged(t, maxSize, maxFiles, after, msgs[n]);
    }
  }

  function FirstOf(segments: seq<seq<string>>, n: nat): seq<seq<string>>
  {
    if n < |segments| then segments[..n] else segments
  }

  /** Reading the files one after the other gives the messages they hold. */
  lemma {:induction false} ReadAllIs(fs: Files, name: string, maxFiles: nat, segments: seq<seq<string>>, k: nat)
    requires Holds(fs, name, maxFiles, segments) && k <= maxFiles
    ensures ReadAll(fs, name, k) == Flatten(InOrder(FirstOf(segments, k + 1)))
  {
    assert Lookup(fs, CalcFilename(name, k)) == if k < |segments| then Some(Flatten(segments[k])) else None;
    if k > 0 {
      ReadAllIs(fs, name, maxFiles, segments, k - 1);
    }
    MoreSegments(segments, k);
  }

  lemma MoreSegments(segments: seq<seq<string>>, k: nat)
    ensures FirstOf(segments, 0) == []
    ensures k >= |segments| ==> FirstOf(segments, k + 1) == FirstOf(segments, k)
    ensures k < |segments| ==>
              Flatten(InOrder(FirstOf(segments, k + 1)))
              == Flatten(segments[k]) + Flatten(InOrder(FirstOf(segments, k)))
  {
    if k < |segments| {
      assert FirstOf(segments, k + 1) == FirstOf(segments, k) + [segments[k]];
      InOrderSnoc(FirstOf(segments, k), segments[k]);
      FlattenConcat(segments[k], InOrder(FirstOf(segments, k)));
    }
  }

  lemma {:induction false} InOrderSnoc(segments: seq<seq<string>>, oldest: seq<string>)
    ensures InOrder(segments + [oldest]) == oldest + InOrder(segments)
  {
    if segments == [] {
      assert [oldest][1..] == [];
    } else {
      assert (segments + [oldest])[1..] == segments[1..] + [oldest];
      InOrderSnoc(segments[1..], oldest);
    }
  }

  lemma EmptyDirectory(name: string, maxSize: nat, maxFiles: nat)
    ensures Kept(State(map[name := ""], 0), name, maxSize, maxFiles, [[]], [], true)
  {
    var fs := map[name := ""];
    forall k: nat | k <= maxFiles
      ensures Lookup(fs, CalcFilename(name, k)) == if k < 1 then Some(Flatten([])) else None
    {
      if k > 0 { Differ(name, 0, k); }
    }
  }

  lemma ReadKept(s: State, name: string, maxSize: nat, maxFiles: nat, segments: seq<seq<string>>,
                 all: seq<string>, exact: bool) returns (from: nat)
    requires Kept(s, name, maxSize, maxFiles, segments, all, exact)
    ensures from <= |all| && ReadAll(s.fs, name, maxFiles) == Flatten(all[from..])
    ensures |segments| <= maxFiles ==> from == 0
  {
    from := |all| - |InOrder(segments)|;
    assert InOrder(segments) == all[from..];
    ReadAllIs(s.fs, name, maxFiles, segments, maxFiles);
  }

  /** From an empty directory: the files read, oldest first, as the end of everything that was logged. */
  lemma RotatedFilesAreASuffix(name: string, maxSize: nat, maxFiles: nat, msgs: seq<string>)
    returns (from: nat, after: seq<seq<string>>)
    ensures var t := LogAll(State(map[name := ""], 0), name, maxSize, maxFiles, msgs);
            && from <= |msgs| && ReadAll(t.fs, name, maxFiles) == Flatten(msgs[from..])
            && Kept(t, name, maxSize, maxFiles, after, msgs, true) && (|after| <= maxFiles ==> from == 0)
  {
    var s := State(map[name := ""], 0);
    assert [] + msgs == msgs;
    EmptyDirectory(name, maxSize, maxFiles);
    after := LogAllKeeps(s, name, maxSize, maxFiles, [[]], [], true, msgs);
    from := ReadKept(LogAll(s, name, maxSize, maxFiles, msgs), name, maxSize, maxFiles, after, msgs, true);
  }

  /** Starting on a file that was there before; its text counts as one message. */
  lemma FoundKept(fs: Files, name: string, maxSize: nat, maxFiles: nat)
    requires name in fs && forall k: nat :: 0 < k <= maxFiles ==> CalcFilename(name, k) !in fs
    ensures Kept(State(fs, |fs[name]|), name, maxSize, maxFiles, [[fs[name]]], [fs[name]], true)
  {
    assert CalcFilename(name, 0) == name && Flatten([fs[name]]) == fs[name];
    assert InOrder([[fs[name]]]) == [fs[name]];
  }

  /** Rotating on open loses the exact size, and the text only if there are no rotated files at all. */
  lemma RotatedOnOpenKept(s: State, name: string, maxSize: nat, maxFiles: nat, segments: seq<seq<string>>,
                          all: seq<string>)
    requires Kept(s, name, maxSize, maxFiles, segments, all, true)
    ensures Kept(State(Rotated(s.fs, name, maxFiles), s.size), name, maxSize, maxFiles,
                 AfterRotation(segments, maxFiles), all, false)
  {
    AfterRotationInOrder(segments, maxFiles);
    SuffixTransitive(InOrder(AfterRotation(segments, maxFiles)), InOrder(segments), all);
    RotatedHolds(s.fs, name, maxFiles, segments);
    AfterRotationSizes(segments, maxFiles, maxSize);
  }

  predicate SizeExact(s: State, name: string) { name in s.fs && s.size == |s.fs[name]| }

  /** After one message the size is exact if it was before, or if the message rotated the files. */
  lemma LoggedSizeExact(s: State, name: string, maxSize: nat, maxFiles: nat, msg: string)
    requires name in s.fs
    ensures var t := Logged(s, name, maxSize, maxFiles, msg);
            name in t.fs && (SizeExact(t, name) <==> SizeExact(s, name) || s.size + |msg| > maxSize)
  {
  }

  /** Whether some message rotates the files. */
  predicate SomeRotate(s: State, name: string, maxSize: nat, maxFiles: nat, msgs: seq<string>)
    decreases |msgs|
  {
    && msgs != []
    && var front := msgs[..|msgs| - 1];
       || SomeRotate(s, name, maxSize, maxFiles, front)
       || LogAll(s, name, maxSize, maxFiles, front).size + |msgs[|msgs| - 1]| > maxSize
  }

  lemma {:induction false} LogAllSizeExact(s: State, name: string, maxSize: nat, maxFiles: nat, msgs: seq<string>)
    requires name in s.fs
    ensures var t := LogAll(s, name, maxSize, maxFiles, msgs);
            && name in t.fs
            && (SizeExact(t, name) <==> SizeExact(s, name) || SomeRotate(s, name, maxSize, maxFiles, msgs))
    decreases |msgs|
  {
    if msgs != [] {
      var front := msgs[..|msgs| - 1];
      LogAllSizeExact(s, name, maxSize, maxFiles, front);
      LoggedSizeExact(LogAll(s, name, maxSize, maxFiles, front), name, maxSize, maxFiles, msgs[|msgs| - 1]);
    }
  }

  /** What the sink starts with when it finds `fs`: the size found is kept even if the files are rotated away. */
  function Opened(fs: Files, name: string, maxFiles: nat, rotates: bool): State
    requires name in fs
  {
    State(if rotates then Rotated(fs, name, maxFiles) else fs, |fs[name]|)
  }

  /** Over every run the size is exact if and only if nothing was rotated away on open or some message has rotated. */
  lemma OpenedSizeExact(fs: Files, name: string, maxSize: nat, maxFiles: nat, rotates: bool, msgs: seq<string>)
    requires name in fs && (rotates ==> fs[name] != "")
    ensures var s := Opened(fs, name, maxFiles, rotates);
            SizeExact(LogAll(s, name, maxSize, maxFiles, msgs), name)
            <==> !rotates || SomeRotate(s, name, maxSize, maxFiles, msgs)
  {
    LogAllSizeExact(Opened(fs, name, maxFiles, rotates), name, maxSize, maxFiles, msgs);
  }

  /** No file whose name does not belong to the log is touched. */
  lemma {:induction false} LogAllKeepsOthers(s: State, name: string, maxSize: nat, maxFiles: nat, msgs: seq<string>,
                                             other: string)
    requires !Rotates(name, maxFiles, other)
    ensures Lookup(LogAll(s, name, maxSize, maxFiles, msgs).fs, other) == Lookup(s.fs, other)
    decreases |msgs|
  {
    assert other != CalcFilename(name, 0);
    if msgs != [] {
      var t := LogAll(s, name, maxSize, maxFiles, msgs[..|msgs| - 1]);
      LogAllKeepsOthers(s, name, maxSize, maxFiles, msgs[..|msgs| - 1], other);
      ShiftUpKeepsOthers(t.fs, name, maxFiles, other);
    }
  }

  /** What a rotated file may hold after a rotation that failed: nothing, or what it or the one before held. */
  predicate Disturbed(before: Files, after: Files, name: string, k: nat)
    requires k > 0
  {
    var now := Lookup(after, CalcFilename(name, k));
    now == None || now == Lookup(before, CalcFilename(name, k)) || now == Lookup(before, CalcFilename(name, k - 1))
  }

  /** What a rotation has done when the files below i are still to come. */
  ghost predicate RotatedFrom(before: Files, now: Files, name: string, maxFiles: nat, i: nat)
  {
    && (forall k: nat :: k < i ==> Lookup(now, CalcFilename(name, k)) == Lookup(before, CalcFilename(name, k)))
    && (forall k: nat :: 0 < k && i <= k <= maxFiles ==> Disturbed(before, now, name, k))
    && OthersKept(before, now, name, maxFiles)
  }

  ghost predicate OthersKept(before: Files, now: Files, name: string, maxFiles: nat)
  {
    forall other :: !Rotates(name, maxFiles, other) ==> Lookup(now, other) == Lookup(before, other)
  }

  lemma NothingRotated(fs: Files, name: string, maxFiles: nat)
    ensures RotatedFrom(fs, fs, name, maxFiles, maxFiles)
  {
    assert maxFiles > 0 ==> Disturbed(fs, fs, name, maxFiles);
  }

  /** A rename that happens, or has nothing to move. */
  lemma MovedKeeps(before: Files, was: Files, name: string, maxFiles: nat, i: nat)
    requires 0 < i <= maxFiles && RotatedFrom(before, was, name, maxFiles, i)
    ensures RotatedFrom(before, Moved(was, CalcFilename(name, i - 1), CalcFilename(name, i)), name, maxFiles, i - 1)
  {
    var src, target := CalcFilename(name, i - 1), CalcFilename(name, i);
    var now := Moved(was, src, target);
    Differ(name, i - 1, i);
    forall k: nat | k <= maxFiles
      ensures k < i - 1 ==> Lookup(now, CalcFilename(name, k)) == Lookup(before, CalcFilename(name, k))
      ensures 0 < k && i - 1 <= k ==> Disturbed(before, now, name, k)
    {
      if k != i - 1 { Differ(name, k, i - 1); }
      if k != i { Differ(name, k, i); }
      MovedFiles(was, src, target, CalcFilename(name, k));
      assert k >= i && k > 0 ==> Disturbed(before, was, name, k);
      assert Lookup(was, src) == Lookup(before, src);
    }
    forall other | !Rotates(name, maxFiles, other) ensures Lookup(now, other) == Lookup(before, other) {
      MovedFiles(was, src, target, other);
      assert Lookup(was, other) == Lookup(before, other);
    }
  }

  /** A rename that fails may at most have deleted its target. */
  lemma FailedKeeps(before: Files, was: Files, now: Files, name: string, maxFiles: nat, i: nat)
    requires 0 < i <= maxFiles && RotatedFrom(before, was, name, maxFiles, i)
    requires now == was || now == was - {CalcFilename(name, i)}
    ensures RotatedFrom(before, now, name, maxFiles, i)
  {
    forall k: nat | k <= maxFiles
      ensures k < i ==> Lookup(now, CalcFilename(name, k)) == Lookup(before, CalcFilename(name, k))
      ensures 0 < k && i <= k ==> Disturbed(before, now, name, k)
    {
      if k != i { Differ(name, k, i); }
      assert k >= i ==> Disturbed(before, was, name, k);
    }
    forall other | !Rotates(name, maxFiles, other) ensures Lookup(now, other) == Lookup(before, other) {
      assert Lookup(was, other) == Lookup(before, other);
    }
  }

  lemma BaseEmptied(before: Files, now: Files, after: Files, name: string, maxFiles: nat, i: nat)
    requires i <= maxFiles && RotatedFrom(before, now, name, maxFiles, i) && after == now[name := ""]
    ensures AllDisturbed(before, after, name, maxFiles) && OthersKept(before, after, name, maxFiles)
  {
    forall k: nat | 0 < k <= maxFiles ensures Disturbed(before, after, name, k) {
      Differ(name, 0, k);
      assert k >= i ==> Disturbed(before, now, name, k);
    }
    forall other | !Rotates(name, maxFiles, other) ensures Lookup(after, other) == Lookup(before, other) {
      assert other != CalcFilename(name, 0);
    }
  }

  predicate AllDisturbed(before: Files, after: Files, name: string, maxFiles: nat)
  {
    forall k: nat :: 0 < k <= maxFiles ==> Disturbed(before, after, name, k)
  }

  lemma AppendKeeps(before: Files, now: Files, after: Files, name: string, maxFiles: nat, text: string)
    requires OthersKept(before, now, name, maxFiles) && after == Append(now, name, text)
    ensures OthersKept(before, after, name, maxFiles)
  {
    forall other | !Rotates(name, maxFiles, other) ensures Lookup(after, other) == Lookup(before, other) {
      assert other != CalcFilename(name, 0);
    }
  }

  class RotatingFileSink {
    const baseFilename: string
    const maxSize: nat
    const maxFiles: nat
    var currentSize: nat
    var files: Files
    var constructed: bool

    ghost predicate Valid()
      reads this
    {
      baseFilename in files && |files[baseFilename]| <= currentSize
    }

    ghost function Value(): State
      reads this
    {
      State(files, currentSize)
    }

    /**
     * Opens the base file, and rotates what it holds away if asked to. The size that was found is kept
     * even then, so it is the size of the base file only if nothing was rotated away.
     */
    constructor (baseFilename: string, maxSize: nat, maxFiles: nat, rotateOnOpen: bool, found: Files)
      ensures this.baseFilename == baseFilename && this.maxSize == maxSize && this.maxFiles == maxFiles && Valid()
      ensures var start := Append(found, baseFilename, "");
              var rotates := rotateOnOpen && start[baseFilename] != "";
              && (!constructed ==> rotates)
              && (constructed ==> Value() == Opened(start, baseFilename, maxFiles, rotates))
              && (constructed ==> (currentSize == |files[baseFilename]| <==> !rotates))
    {
      this.baseFilename, this.maxSize, this.maxFiles := baseFilename, maxSize, maxFiles;
      files := Append(found, baseFilename, "");
      currentSize := |Append(found, baseFilename, "")[baseFilename]|;
      constructed := true;
      new;
      if rotateOnOpen && currentSize > 0 {
        var thrown := Rotate();
        constructed := !thrown;
      }
    }

    /** Deletes the target, which may fail, and renames, which may fail too. */
    method RenameFile(src: string, target: string) returns (ok: bool)
      requires src in files && src != target
      modifies this`files
      ensures ok ==> files == Moved(old(files), src, target)
      ensures !ok ==> files == old(files) || files == old(files) - {target}
    {
      var deleted: bool := *;
      if deleted { files := files - {target}; }
      ok := *;
      if ok { files := Moved(files, src, target); }
    }

    /** One round of the rotation: moves the file before i to i, with a second try if that fails. */
    method RotateOne(i: nat, ghost before: Files) returns (ok: bool)
      requires 0 < i <= maxFiles && RotatedFrom(before, files, baseFilename, maxFiles, i)
      modifies this`files
      ensures ok ==> files == Moved(old(files), CalcFilename(baseFilename, i - 1), CalcFilename(baseFilename, i))
      ensures RotatedFrom(before, files, baseFilename, maxFiles, if ok then i - 1 else i)
    {
      ghost var was := files;
      var src := CalcFilename(baseFilename, i - 1);
      MovedKeeps(before, was, baseFilename, maxFiles, i);
      if src !in files { return true; }
      var target := CalcFilename(baseFilename, i);
      Differ(baseFilename, i - 1, i);
      ok := RenameFile(src, target);
      if !ok {
        ok := RenameFile(src, target);
        assert ok ==> files == Moved(was, src, target);
        if !ok { FailedKeeps(before, was, files, baseFilename, maxFiles, i); }
      }
    }

    /** Thrown if some rename failed twice; the base file is emptied in any case. */
    method Rotate() returns (thrown: bool)
      modifies this`files, this`currentSize
      ensures !thrown ==> files == Rotated(old(files), baseFilename, maxFiles) && currentSize == old(currentSize)
      ensures thrown ==> currentSize == 0
      ensures Lookup(files, baseFilename) == Some("")
      ensures AllDisturbed(old(files), files, baseFilename, maxFiles)
      ensures OthersKept(old(files), files, baseFilename, maxFiles)
    {
      var i := maxFiles;
      ghost var before := files;
      NothingRotated(files, baseFilename, maxFiles);
      while i > 0
        invariant 0 <= i <= maxFiles && currentSize == old(currentSize)
        invariant ShiftUp(files, baseFilename, i) == ShiftUp(before, baseFilename, maxFiles)
        invariant RotatedFrom(before, files, baseFilename, maxFiles, i)
      {
        var renamed := RotateOne(i, before);
        if !renamed {
          EmptyBase(before, i);
          currentSize := 0;
          return true;
        }
        i := i - 1;
      }
      EmptyBase(before, 0);
      return false;
    }

    /** Opens the base file anew, truncating it. */
    method EmptyBase(ghost before: Files, ghost i: nat)
      requires i <= maxFiles && RotatedFrom(before, files, baseFilename, maxFiles, i)
      modifies this`files
      ensures files == old(files)[baseFilename := ""]
      ensures AllDisturbed(before, files, baseFilename, maxFiles) && OthersKept(before, files, baseFilename, maxFiles)
    {
      BaseEmptied(before, files, files[baseFilename := ""], baseFilename, maxFiles, i);
      files := files[baseFilename := ""];
    }

    /** Thrown only if a rotation failed; then the message is lost, and the base file is empty. */
    method SinkIt(formatted: string) returns (thrown: bool)
      requires Valid()
      modifies this`files, this`currentSize
      ensures Valid()
      ensures !thrown ==> Value() == Logged(old(Value()), baseFilename, maxSize, maxFiles, formatted)
      ensures thrown ==> old(currentSize) + |formatted| > maxSize && files[baseFilename] == "" && currentSize == 0
      ensures thrown ==> AllDisturbed(old(files), files, baseFilename, maxFiles)
      ensures currentSize == |files[baseFilename]|
              <==> old(currentSize == |files[baseFilename]| || currentSize + |formatted| > maxSize)
      ensures OthersKept(old(files), files, baseFilename, maxFiles)
    {
      ghost var before := files;
      currentSize := currentSize + |formatted|;
      if currentSize > maxSize {
        thrown := Rotate();
        if thrown { return true; }
        currentSize := |formatted|;
      }
      AppendKeeps(before, files, Append(files, baseFilename, formatted), baseFilename, maxFiles, formatted);
      files := Append(files, baseFilename, formatted);
      return false;
    }
  }
}
