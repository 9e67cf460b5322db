/** The persisted ingest tokens through failed saves, crashes and restarts:
    internal/ingesttoken/token.go.

    A save writes a temporary file and renames it into place.  All that shows from outside is whether
    the rename happened, and whether the process lived to return.
  */
module TokenRuns {

  datatype Token = Token(text: string)

  /** What the file at the registry's path holds. */
  datatype File = Absent | Empty | Tokens(valid: map<Token, string>) | Corrupt

  /** The ways a save can end. */
  datatype Save = Saved | Failed | CrashedBeforeRename | CrashedAfterRename

  datatype Memory = Down | Up(valid: map<Token, string>)

  /** `issued` are the tokens some `Issue` returned, `revoking` those any `Revoke` was called for,
      `revoked` those one returned without error for, `minted` all that were ever generated. */
  datatype World = World(memory: Memory, file: File, issued: set<Token>, revoking: set<Token>,
                         revoked: set<Token>, minted: set<Token>)

  datatype Event =
    | Issue(token: Token, service: string, save: Save)
    | Revoke(token: Token, save: Save)
    | Crash
    | Restart

  /** Generated tokens are new, being long and random: nobody has seen one before. */
  predicate Enabled(w: World, e: Event) {
    match e
    case Issue(t, _, _) => w.memory.Up? && t !in w.minted && t !in w.revoking && t.text != ""
    case Revoke(t, _) => w.memory.Up? && t.text != ""
    case Crash => true
    case Restart => w.memory.Down?
  }

  /** What a starting registry makes of the file; a corrupt one keeps it from starting. */
  function Load(f: File): Memory {
    match f
    case Absent => Up(map[])
    case Empty => Up(map[])
    case Tokens(valid) => Up(valid)
    case Corrupt => Down
  }

  function FileAfter(f: File, valid: map<Token, string>, save: Save): File {
    if save == Saved || save == CrashedAfterRename then Tokens(valid) else f
  }

  function MemoryAfter(valid: map<Token, string>, save: Save): Memory {
    if save == Saved || save == Failed then Up(valid) else Down
  }

  function Step(w: World, e: Event): World
    requires Enabled(w, e)
  {
    match e
    case Issue(t, service, save) =>
      var valid := w.memory.valid[t := service];
      World(MemoryAfter(valid, save), FileAfter(w.file, valid, save),
            if save == Saved then w.issued + {t} else w.issued, w.revoking, w.revoked, w.minted + {t})
    case Revoke(t, save) =>
      var valid := w.memory.valid - {t};
      World(MemoryAfter(valid, save), FileAfter(w.file, valid, save), w.issued, w.revoking + {t},
            if save == Saved then w.revoked + {t} else w.revoked, w.minted)
    case Crash => w.(memory := Down)
    case Restart => w.(memory := Load(w.file))
  }

  ghost predicate IsRun(w: World, events: seq<Event>, v: World)
    decreases |events|
  {
    if events == [] then w == v
    else Enabled(w, events[0]) && IsRun(Step(w, events[0]), events[1..], v)
  }

  predicate Accepts(w: World, t: Token) {
    t.text != "" && w.memory.Up? && t in w.memory.valid
  }

  predicate InFile(f: File, t: Token) { f.Tokens? && t in f.valid }

  /** A token handed out and never withdrawn is on disk, and in memory whenever there is one. */
  ghost predicate Kept(w: World, t: Token) {
    t in w.issued && t !in w.revoking ==>
      t.text != "" && InFile(w.file, t) && (w.memory.Up? ==> t in w.memory.valid)
  }

  /** A token withdrawn for good is in neither. */
  ghost predicate Withdrawn(w: World, t: Token) {
    t in w.revoked ==> t in w.revoking && !InFile(w.file, t) && (w.memory.Up? ==> t !in w.memory.valid)
  }

  /** Nothing is anywhere that was not generated, here or before. */
  ghost predicate Known(w: World, t: Token) {
    InFile(w.file, t) || (w.memory.Up? && t in w.memory.valid) || t in w.issued ==> t in w.minted
  }

  ghost predicate Inv(w: World) {
    forall t :: Kept(w, t) && Withdrawn(w, t) && Known(w, t)
  }

  lemma StepKeepsInv(w: World, e: Event)
    requires Inv(w) && Enabled(w, e)
    ensures Inv(Step(w, e))
  {
    forall t ensures Kept(Step(w, e), t) && Withdrawn(Step(w, e), t) && Known(Step(w, e), t) {
      assert Kept(w, t) && Withdrawn(w, t) && Known(w, t);
    }
  }

  lemma {:induction false} RunKeepsInv(w: World, events: seq<Event>, v: World)
    requires Inv(w) && IsRun(w, events, v)
    ensures Inv(v) && w.minted <= v.minted && w.issued <= v.issued && w.revoked <= v.revoked
    decreases |events|
  {
    if events != [] {
      StepKeepsInv(w, events[0]);
      RunKeepsInv(Step(w, events[0]), events[1..], v);
    }
  }

  /** A process starting on a file left by an earlier one, whose tokens count as generated. */
  function Begin(f: File): World {
    World(Load(f), f, {}, {}, {}, if f.Tokens? then f.valid.Keys else {})
  }

  /** Through failed saves, crashes at any point and restarts: while the registry is up it accepts
      every token it handed out and was never asked to withdraw. */
  lemma IssuedTokensSurvive(f: File, events: seq<Event>, v: World, t: Token)
    requires IsRun(Begin(f), events, v) && t in v.issued && t !in v.revoking
    ensures v.memory.Up? ==> Accepts(v, t)
    ensures Load(v.file).Up? && Accepts(v.(memory := Load(v.file)), t)
  {
    RunKeepsInv(Begin(f), events, v);
    assert Kept(v, t);
  }

  /** A token withdrawn without error is never accepted again, whatever happens next. */
  lemma RevokedTokensStayOut(f: File, events: seq<Event>, v: World, t: Token)
    requires IsRun(Begin(f), events, v) && t in v.revoked
    ensures !Accepts(v, t) && !Accepts(v.(memory := Load(v.file)), t)
  {
    RunKeepsInv(Begin(f), events, v);
    assert Withdrawn(v, t) && Known(v, t);
  }

  /** The step writes the file: its save got as far as the rename. */
  predicate Renames(e: Event) {
    (e.Issue? || e.Revoke?) && (e.save == Saved || e.save == CrashedAfterRename)
  }

  ghost predicate NoRename(events: seq<Event>) { forall e :: e in events ==> !Renames(e) }

  ghost predicate NoRestart(events: seq<Event>) { forall e :: e in events ==> e != Restart }

  /** Once withdrawn in memory, a token stays in the file until the first save that gets there. */
  lemma {:induction false} FileUntilRename(w: World, events: seq<Event>, v: World, t: Token)
    requires IsRun(w, events, v) && NoRestart(events)
    requires t in w.revoking && (w.memory.Up? ==> t !in w.memory.valid)
    ensures InFile(v.file, t) <==> InFile(w.file, t) && NoRename(events)
    decreases |events|
  {
    if events != [] {
      var e, rest := events[0], events[1..];
      assert e in events && forall f :: f in events <==> f == e || f in rest;
      FileUntilRename(Step(w, e), rest, v, t);
      assert NoRename(events) <==> !Renames(e) && NoRename(rest);
    }
  }

  /** A withdrawal is undone by the first restart after it exactly when the file held the token and no
      save got as far as the rename in between, that of the withdrawal included. */
  lemma RevokeComesBackIff(w: World, t: Token, save: Save, later: seq<Event>, v: World)
    requires w.memory.Up? && t.text != ""
    requires IsRun(Step(w, Revoke(t, save)), later, v) && NoRestart(later)
    ensures Accepts(Step(Step(v, Crash), Restart), t) <==>
            InFile(w.file, t) && !Renames(Revoke(t, save)) && NoRename(later)
  {
    var u := Step(w, Revoke(t, save));
    FileUntilRename(u, later, v, t);
    assert u.file == if Renames(Revoke(t, save)) then Tokens(w.memory.valid - {t}) else w.file;
  }

  /** A token that was handed out, or whose saving failed, is accepted after the next restart exactly when
      its own save, or a later one, got as far as the rename. */
  lemma IssueSurvivesIff(w: World, t: Token, service: string, save: Save, later: seq<Event>, v: World)
    requires Enabled(w, Issue(t, service, save)) && !InFile(w.file, t)
    requires IsRun(Step(w, Issue(t, service, save)), later, v) && NoRestart(later)
    requires forall e :: e in later && e.Revoke? ==> e.token != t
    ensures Accepts(Step(Step(v, Crash), Restart), t) <==> Renames(Issue(t, service, save)) || !NoRename(later)
  {
    InFileAfterRename(Step(w, Issue(t, service, save)), later, v, t);
  }

  lemma {:induction false} InFileAfterRename(w: World, events: seq<Event>, v: World, t: Token)
    requires IsRun(w, events, v) && NoRestart(events)
    requires t in w.minted && (w.memory.Up? ==> t in w.memory.valid)
    requires forall e :: e in events && e.Revoke? ==> e.token != t
    ensures InFile(v.file, t) <==> InFile(w.file, t) || !NoRename(events)
    decreases |events|
  {
    if events != [] {
      var e, rest := events[0], events[1..];
      assert e in events && forall f :: f in events <==> f == e || f in rest;
      InFileAfterRename(Step(w, e), rest, v, t);
      assert NoRename(events) <==> !Renames(e) && NoRename(rest);
    }
  }

  /** A file that cannot be read is never written over: nothing is accepted, and nothing issued, until
      someone else repairs it. */
  lemma {:induction false} CorruptFileIsKept(w: World, events: seq<Event>, v: World)
    requires w.file == Corrupt && w.memory.Down? && IsRun(w, events, v)
    ensures v.file == Corrupt && v.memory.Down? && v.issued == w.issued && forall t :: !Accepts(v, t)
    decreases |events|
  {
    if events != [] {
      CorruptFileIsKept(Step(w, events[0]), events[1..], v);
    }
  }

  ghost predicate Readable(f: File) { f == Absent || f == Empty || f.Tokens? }

  /** Started on a file that is absent, empty or readable, the registry never leaves one behind, at whatever
      point it fails or crashes, on which it could not be started again. */
  lemma {:induction false} AlwaysRestarts(w: World, events: seq<Event>, v: World)
    requires Readable(w.file) && IsRun(w, events, v)
    ensures Readable(v.file) && Step(Step(v, Crash), Restart).memory.Up?
    decreases |events|
  {
    if events != [] {
      AlwaysRestarts(Step(w, events[0]), events[1..], v);
    }
  }
}
