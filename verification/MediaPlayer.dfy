// MediaPlayerImpl: a state machine that has at most one asynchronous operation
// under way and works towards what the client has asked for.

module MediaPlayers {

  /** No position: the largest 64-bit integer. */
  const UNSPECIFIED_TIME: int := 0x7fff_ffff_ffff_ffff

  datatype State = Inactive | Waiting | Flushed | Primed | Playing

  /**
   * What the player waits for. Connect creates a source and connects its streams. A seek first tells
   * the renderers of the position and then seeks in the source. Starting and stopping set a timeline
   * transform as well, which may name a position to go on from.
   */
  datatype Op =
    | Connect
    | SeekTransform(position: int)
    | SeekSource(position: int)
    | Prime
    | Flush
    | Start(subject: int)
    | Stop(subject: int)

  /**
   * reader says whether a reader is waiting to be used, source whether there is a source, and filled
   * whether there are packets in the pipeline. transformSubject is the position that the next
   * transform is to name. pending are the operations under way, seeks the positions that sources have
   * been asked to seek to, and subjects the positions that timeline transforms have named.
   */
  datatype Player = Player(
    state: State,
    target: State,
    targetPosition: int,
    transformSubject: int,
    readerTransitionPending: bool,
    reader: bool,
    source: bool,
    endOfStream: bool,
    pending: seq<Op>,
    filled: bool,
    seeks: seq<int>,
    subjects: seq<int>)

  function Begin(p: Player, op: Op): Player {
    p.(state := Waiting, pending := p.pending + [op])
  }

  /** A transform uses up the position it names. */
  function Transform(p: Player, op: Op): Player {
    Begin(p.(transformSubject := UNSPECIFIED_TIME, subjects := p.subjects + [Subject(op)]), op)
  }

  /** The position that the transform of an operation names. */
  function Subject(op: Op): int {
    match op
    case SeekTransform(position) => position
    case Start(subject) => subject
    case Stop(subject) => subject
    case _ => UNSPECIFIED_TIME
  }

  function MaybeCreateSource(p: Player): Player {
    if !p.reader then p else Begin(p.(reader := false, source := true), Connect)
  }

  /** A player that is given a reader, or none. */
  function Created(reader: bool): Player {
    MaybeCreateSource(
      Player(Inactive, Flushed, UNSPECIFIED_TIME, UNSPECIFIED_TIME, false, reader, false, false, [], false, [], []))
  }

  function SwitchReader(p: Player): Player {
    MaybeCreateSource(p.(readerTransitionPending := false, state := Inactive, source := false, transformSubject := 0))
  }

  function Update(p: Player): Player
    decreases p.state.Playing?
  {
    match p.state
    case Inactive => if p.readerTransitionPending then SwitchReader(p) else p
    case Waiting => p
    case Flushed =>
      if p.readerTransitionPending then SwitchReader(p)
      else if p.targetPosition != UNSPECIFIED_TIME then Transform(p, SeekTransform(p.targetPosition))
      else if p.target.Playing? || p.target.Primed? then Begin(p, Prime)
      else p
    case Primed =>
      if p.targetPosition != UNSPECIFIED_TIME || p.target.Flushed? || p.readerTransitionPending then Begin(p, Flush)
      else if p.target.Playing? then Transform(p, Start(p.transformSubject))
      else p
    case Playing =>
      if p.targetPosition != UNSPECIFIED_TIME || p.target.Flushed? || p.target.Primed? || p.readerTransitionPending
      then Transform(p, Stop(p.transformSubject))
      else if p.endOfStream then Update(p.(target := Primed, state := Primed))
      else p
  }

  datatype Command = Play | Pause | Seek(position: int) | SetReader(reader: bool)

  function Commanded(p: Player, c: Command): Player {
    match c
    case Play => Update(p.(target := Playing))
    case Pause => Update(p.(target := Primed))
    case Seek(position) => Update(p.(targetPosition := position))
    case SetReader(reader) =>
      if !reader && !p.source then p
      else Update(p.(readerTransitionPending := true, reader := reader, targetPosition := UNSPECIFIED_TIME))
  }

  function StatusUpdated(p: Player, endOfStream: bool): Player {
    Update(p.(endOfStream := endOfStream))
  }

  /** The operation under way completes. */
  function Completed(p: Player): Player
    requires |p.pending| == 1
  {
    var done := p.(pending := []);
    match p.pending[0]
    case SeekTransform(_) =>
      done.(pending := [SeekSource(p.targetPosition)], seeks := p.seeks + [p.targetPosition])
    case SeekSource(_) => Update(done.(targetPosition := UNSPECIFIED_TIME, state := Flushed))
    case Connect => Update(done.(state := Flushed, filled := false))
    case Prime => Update(done.(state := Primed, filled := true))
    case Flush => Update(done.(state := Flushed, filled := false))
    case Start(_) => Update(done.(state := Playing))
    case Stop(_) => Update(done.(state := Primed))
  }

  // ----- safety

  /** The pipeline has packets exactly in the states, and under the operations, that suppose it has. */
  predicate OpFits(p: Player, op: Op) {
    p.source && (p.filled <==> op.Flush? || op.Start? || op.Stop?)
  }

  predicate StateFits(p: Player) {
    match p.state
    case Inactive => !p.source && !p.filled
    case Waiting => |p.pending| == 1 && OpFits(p, p.pending[0])
    case Flushed => p.source && !p.filled
    case _ => p.source && p.filled
  }

  /**
   * Only the first start of a source that nobody has asked to seek names a position, its beginning;
   * stopping never names one.
   */
  predicate SubjectFits(p: Player) {
    && (p.transformSubject == 0 || p.transformSubject == UNSPECIFIED_TIME)
    && (p.state.Playing? ==> p.transformSubject == UNSPECIFIED_TIME)
    && (|p.pending| == 1 ==>
          match p.pending[0]
          case Stop(x) => x == p.transformSubject == UNSPECIFIED_TIME
          case Start(x) => (x == 0 || x == UNSPECIFIED_TIME) && p.transformSubject == UNSPECIFIED_TIME
          case SeekTransform(_) => p.transformSubject == UNSPECIFIED_TIME
          case SeekSource(_) => p.transformSubject == UNSPECIFIED_TIME
          case _ => true)
  }

  /** Nothing to do: the player is where the client wants it, or has nothing to play. */
  predicate Settled(p: Player) {
    && !p.readerTransitionPending
    && (p.state.Inactive? || (p.state == p.target && p.targetPosition == UNSPECIFIED_TIME))
  }

  predicate Inv(p: Player) {
    && (p.state.Waiting? <==> |p.pending| == 1) && |p.pending| <= 1
    && StateFits(p) && SubjectFits(p)
    && !p.target.Inactive? && !p.target.Waiting?
    && (p.reader ==> p.readerTransitionPending)
    && (!p.state.Waiting? ==> Settled(p))
    && (p.state.Playing? ==> !p.endOfStream)
  }

  /** The same but before the player has looked for work. */
  predicate Ready(p: Player) {
    && (p.state.Waiting? <==> |p.pending| == 1) && |p.pending| <= 1
    && StateFits(p) && SubjectFits(p)
    && !p.target.Inactive? && !p.target.Waiting?
    && (p.reader ==> p.readerTransitionPending)
  }

  lemma UpdateKeeps(p: Player)
    requires Ready(p)
    ensures Inv(Update(p))
    ensures p.seeks == Update(p).seeks
  {
  }

  datatype Event = Client(command: Command) | Status(endOfStream: bool) | Completion

  function Next(p: Player, e: Event): Player
    requires e.Completion? ==> |p.pending| == 1
  {
    match e
    case Client(c) => Commanded(p, c)
    case Status(eos) => StatusUpdated(p, eos)
    case Completion => Completed(p)
  }

  lemma CommandKeeps(p: Player, c: Command)
    requires Inv(p)
    ensures Inv(Commanded(p, c))
  {
    match c
    case Play => UpdateKeeps(p.(target := Playing));
    case Pause => UpdateKeeps(p.(target := Primed));
    case Seek(position) => UpdateKeeps(p.(targetPosition := position));
    case SetReader(reader) =>
      if reader || p.source {
        UpdateKeeps(p.(readerTransitionPending := true, reader := reader, targetPosition := UNSPECIFIED_TIME));
      }
  }

  lemma CompletionKeeps(p: Player)
    requires Inv(p) && |p.pending| == 1
    ensures Inv(Completed(p))
  {
    var done := p.(pending := []);
    match p.pending[0]
    case SeekTransform(_) =>
    case SeekSource(_) => UpdateKeeps(done.(targetPosition := UNSPECIFIED_TIME, state := Flushed));
    case Connect => UpdateKeeps(done.(state := Flushed, filled := false));
    case Prime => UpdateKeeps(done.(state := Primed, filled := true));
    case Flush => UpdateKeeps(done.(state := Flushed, filled := false));
    case Start(_) => UpdateKeeps(done.(state := Playing));
    case Stop(_) => UpdateKeeps(done.(state := Primed));
  }

  lemma NextKeeps(p: Player, e: Event)
    requires Inv(p) && (e.Completion? ==> |p.pending| == 1)
    ensures Inv(Next(p, e))
  {
    match e
    case Client(c) => CommandKeeps(p, c);
    case Status(eos) => UpdateKeeps(p.(endOfStream := eos));
    case Completion => CompletionKeeps(p);
  }

  // ----- convergence

  function WorkWhenFlushed(target: State, position: int, transition: bool, reader: bool): nat {
    var goal := if target.Playing? then 2 else if target.Primed? then 1 else 0;
    var seek := if position != UNSPECIFIED_TIME then 2 else 0;
    if transition then if reader then 1 + seek + goal else 0
    else seek + goal
  }

  function WorkWhenPrimed(target: State, position: int, transition: bool, reader: bool): nat {
    if position != UNSPECIFIED_TIME || target.Flushed? || transition
    then 1 + WorkWhenFlushed(target, position, transition, reader)
    else if target.Playing? then 1 else 0
  }

  function WorkWhenPlaying(target: State, position: int, transition: bool, reader: bool): nat {
    if position != UNSPECIFIED_TIME || !target.Playing? || transition
    then 1 + WorkWhenPrimed(target, position, transition, reader)
    else 0
  }

  /** Where the player is going: at the end of the stream it stops playing as soon as it has started. */
  function Goal(p: Player): State {
    if p.endOfStream && p.target.Playing? then Primed else p.target
  }

  /** How many completions it takes until the player settles, if no command comes and the flag stays as it is. */
  function Work(p: Player): nat
    requires Inv(p)
  {
    if !p.state.Waiting? then 0
    else
      var (t, x, r, n) := (p.target, p.targetPosition, p.readerTransitionPending, p.reader);
      match p.pending[0]
      case Connect => 1 + WorkWhenFlushed(t, x, r, n)
      case SeekTransform(_) => 2 + WorkWhenFlushed(t, UNSPECIFIED_TIME, r, n)
      case SeekSource(_) => 1 + WorkWhenFlushed(t, UNSPECIFIED_TIME, r, n)
      case Prime => 1 + WorkWhenPrimed(t, x, r, n)
      case Flush => 1 + WorkWhenFlushed(t, x, r, n)
      case Start(_) => 1 + WorkWhenPlaying(t, x, r, n)
      case Stop(_) => 1 + WorkWhenPrimed(t, x, r, n)
  }

  lemma UpdateWork(p: Player)
    requires Ready(p) && !p.state.Waiting? && !p.state.Inactive?
    ensures Inv(Update(p)) && Update(p).endOfStream == p.endOfStream && Goal(Update(p)) == Goal(p)
    ensures var (t, x, r, n) := (p.target, p.targetPosition, p.readerTransitionPending, p.reader);
            Work(Update(p)) ==
            match p.state
            case Flushed => WorkWhenFlushed(t, x, r, n)
            case Primed => WorkWhenPrimed(t, x, r, n)
            case _ => WorkWhenPlaying(t, x, r, n)
  {
    UpdateKeeps(p);
  }

  /** Nothing is left to play and nothing else to do. */
  predicate PlayedOut(p: Player) {
    p.endOfStream && p.target.Playing? && p.targetPosition == UNSPECIFIED_TIME && !p.readerTransitionPending
  }

  lemma PlayedOutStops(p: Player)
    requires p.state.Playing? && PlayedOut(p)
    ensures Update(p) == p.(target := Primed, state := Primed)
  {
    assert Update(p.(target := Primed, state := Primed)) == p.(target := Primed, state := Primed);
  }

  /** Every completion takes the player exactly one step closer to where it settles. */
  lemma CompletionWorks(p: Player)
    requires Inv(p) && p.state.Waiting?
    ensures Inv(Completed(p)) && Completed(p).endOfStream == p.endOfStream && Work(Completed(p)) == Work(p) - 1
    ensures Goal(Completed(p)) == Goal(p)
  {
    CompletionKeeps(p);
    var done := p.(pending := []);
    match p.pending[0]
    case SeekTransform(_) =>
    case SeekSource(_) => UpdateWork(done.(targetPosition := UNSPECIFIED_TIME, state := Flushed));
    case Connect => UpdateWork(done.(state := Flushed, filled := false));
    case Prime => UpdateWork(done.(state := Primed, filled := true));
    case Flush => UpdateWork(done.(state := Flushed, filled := false));
    case Start(_) => UpdateWork(done.(state := Playing));
    case Stop(_) => UpdateWork(done.(state := Primed));
  }

  /** What becomes of the player if every operation completes and nothing else happens. */
  function Finish(p: Player): Player
    requires Inv(p)
    decreases Work(p)
  {
    if p.state.Waiting? then CompletionWorks(p); Finish(Completed(p)) else p
  }

  /** No more than eight operations are ever needed. */
  lemma WorkBounded(p: Player)
    requires Inv(p)
    ensures Work(p) <= 8
    ensures Work(p) == 0 <==> !p.state.Waiting?
  {
  }

  /** Whether the source is going away with none to replace it. */
  predicate Leaving(p: Player) {
    p.readerTransitionPending && !p.reader
  }

  lemma StartPlayedOut(p: Player)
    requires Inv(p) && p.state.Waiting?
    ensures p.pending[0].Start? && PlayedOut(p) ==> Completed(p) == p.(pending := [], target := Primed, state := Primed)
  {
    if p.pending[0].Start? && PlayedOut(p) {
      PlayedOutStops(p.(pending := [], state := Playing));
    }
  }

  lemma CompletionLeaves(p: Player)
    requires Inv(p) && p.state.Waiting?
    ensures var q := Completed(p);
            if Leaving(p) then Leaving(q) || q.state.Inactive? else !Leaving(q) && !q.state.Inactive?
  {
    StartPlayedOut(p);
  }

  /**
   * Left alone, the player settles in the state that the client asked for last, but does not go on playing
   * at the end of the stream, or becomes inactive if it has no reader.
   */
  lemma {:induction false} Converges(p: Player)
    requires Inv(p)
    ensures Inv(Finish(p)) && Settled(Finish(p))
    ensures Finish(p).state == if Leaving(p) || p.state.Inactive? then Inactive else Goal(p)
    decreases Work(p)
  {
    if p.state.Waiting? {
      CompletionWorks(p);
      CompletionLeaves(p);
      Converges(Completed(p));
    }
  }

  // ----- seeks

  /** The positions that sources will still be asked to seek to. */
  function Planned(p: Player): seq<int>
    requires Inv(p)
  {
    if !p.state.Waiting? then []
    else
      match p.pending[0]
      case SeekTransform(_) => [p.targetPosition]
      case SeekSource(_) => []
      case _ => if p.targetPosition != UNSPECIFIED_TIME && !Leaving(p) then [p.targetPosition] else []
  }

  lemma CompletionPlans(p: Player)
    requires Inv(p) && p.state.Waiting?
    ensures Inv(Completed(p)) && Completed(p).seeks + Planned(Completed(p)) == p.seeks + Planned(p)
  {
    CompletionKeeps(p);
    StartPlayedOut(p);
  }

  lemma {:induction false} SeeksAsPlanned(p: Player)
    requires Inv(p)
    ensures Finish(p).seeks == p.seeks + Planned(p)
    decreases Work(p)
  {
    if p.state.Waiting? {
      CompletionWorks(p);
      CompletionPlans(p);
      SeeksAsPlanned(Completed(p));
    }
  }

  predicate InSourceSeek(p: Player) {
    |p.pending| == 1 && p.pending[0].SeekSource?
  }

  predicate InSeekTransform(p: Player) {
    |p.pending| == 1 && p.pending[0].SeekTransform?
  }

  /**
   * A seek is carried out exactly if there is, or will be, a source to seek in and that source is not
   * seeking already: a seek asked for during one is forgotten when that one completes.
   */
  lemma SeekHonoured(p: Player, position: int)
    requires Inv(p) && position != UNSPECIFIED_TIME
    ensures var q := Commanded(p, Seek(position));
            && Inv(q)
            && (Finish(q).seeks == p.seeks + [position] <==>
                  !p.state.Inactive? && !InSourceSeek(p) && (InSeekTransform(p) || !Leaving(p)))
            && (Finish(q).seeks == p.seeks + [position] || Finish(q).seeks == p.seeks)
  {
    CommandKeeps(p, Seek(position));
    var q := Commanded(p, Seek(position));
    SeeksAsPlanned(q);
    assert |p.seeks + [position]| == |p.seeks| + 1;
    assert q.seeks == p.seeks;
    assert Planned(q) == [position] || Planned(q) == [];
    assert p.seeks + [] == p.seeks;
  }

  /**
   * Changing the reader makes the player ask for a seek exactly if the renderers are just being told
   * of one, and then for no position at all.
   */
  lemma NewReaderSeeks(p: Player, reader: bool)
    requires Inv(p) && (reader || p.source)
    ensures var q := Commanded(p, SetReader(reader));
            && Inv(q)
            && Finish(q).seeks == p.seeks + if InSeekTransform(p) then [UNSPECIFIED_TIME] else []
  {
    CommandKeeps(p, SetReader(reader));
    SeeksAsPlanned(Commanded(p, SetReader(reader)));
  }

  // ----- what the commands bring about

  /** A new player flushes what its reader gives it and goes no further until it is told to. */
  lemma CreatedSettles(reader: bool)
    ensures var p := Created(reader);
            && Inv(p) && Finish(p).state == (if reader then Flushed else Inactive)
            && Finish(p).seeks == [] && Finish(p).subjects == []
  {
    Converges(Created(reader));
    SeeksAsPlanned(Created(reader));
    SubjectsAsPlanned(Created(reader));
  }

  /** Playing starts or goes on unless there is nothing to play, or nothing is left of it. */
  lemma PlayPlays(p: Player)
    requires Inv(p)
    ensures var q := Commanded(p, Play);
            && Inv(q) && q.target == Playing && Finish(q).seeks == Finish(p).seeks
            && Finish(q).state ==
               if p.state.Inactive? || Leaving(p) then Inactive else if p.endOfStream then Primed else Playing
  {
    CommandKeeps(p, Play);
    Converges(Commanded(p, Play));
    SeeksAsPlanned(p);
    SeeksAsPlanned(Commanded(p, Play));
  }

  lemma PausePauses(p: Player)
    requires Inv(p)
    ensures var q := Commanded(p, Pause);
            && Inv(q) && q.target == Primed && Finish(q).seeks == Finish(p).seeks
            && Finish(q).state == if p.state.Inactive? || Leaving(p) then Inactive else Primed
  {
    CommandKeeps(p, Pause);
    Converges(Commanded(p, Pause));
    SeeksAsPlanned(p);
    SeeksAsPlanned(Commanded(p, Pause));
  }

  /** A seek changes nothing about where the player settles. */
  lemma SeekGoesOn(p: Player, position: int)
    requires Inv(p)
    ensures var q := Commanded(p, Seek(position));
            Inv(q) && Finish(q).state == if p.state.Inactive? || Leaving(p) then Inactive else Goal(p)
  {
    CommandKeeps(p, Seek(position));
    Converges(Commanded(p, Seek(position)));
  }

  /** A new reader is taken to where the client wanted the old one to be; without one the player becomes inactive. */
  lemma ReaderTakesOver(p: Player, reader: bool)
    requires Inv(p)
    ensures var q := Commanded(p, SetReader(reader));
            Inv(q) && Finish(q).state == if reader then Goal(p) else Inactive
  {
    CommandKeeps(p, SetReader(reader));
    Converges(Commanded(p, SetReader(reader)));
  }

  /** Reaching the end of the stream stops the player, and leaving it does not start it again by itself. */
  lemma StatusSettles(p: Player, endOfStream: bool)
    requires Inv(p)
    ensures var q := StatusUpdated(p, endOfStream);
            && Inv(q) && q.endOfStream == endOfStream && Finish(q).seeks == Finish(p).seeks
            && Finish(q).state ==
               if p.state.Inactive? || Leaving(p) then Inactive
               else if endOfStream && p.target.Playing? then Primed else p.target
  {
    UpdateKeeps(p.(endOfStream := endOfStream));
    if p.state.Playing? && endOfStream {
      PlayedOutStops(p.(endOfStream := endOfStream));
    }
    var q := StatusUpdated(p, endOfStream);
    Converges(q);
    SeeksAsPlanned(p);
    SeeksAsPlanned(q);
  }

  // ----- the positions that renderers are told of

  function SubjectsWhenFlushed(target: State, position: int, transition: bool, reader: bool, next: int): seq<int> {
    if transition then if reader then SubjectsWhenFlushed(target, position, false, false, 0) else []
    else if position != UNSPECIFIED_TIME then [position] + if target.Playing? then [UNSPECIFIED_TIME] else []
    else if target.Playing? then [next] else []
  }

  function SubjectsWhenPrimed(target: State, position: int, transition: bool, reader: bool, next: int): seq<int> {
    if position != UNSPECIFIED_TIME || target.Flushed? || transition
    then SubjectsWhenFlushed(target, position, transition, reader, next)
    else if target.Playing? then [next] else []
  }

  function SubjectsWhenPlaying(target: State, position: int, transition: bool, reader: bool, next: int): seq<int> {
    if position != UNSPECIFIED_TIME || !target.Playing? || transition
    then [next] + SubjectsWhenPrimed(target, position, transition, reader, UNSPECIFIED_TIME)
    else []
  }

  /** The positions that transforms will still name, if no command comes and the flag stays as it is. */
  function PlannedSubjects(p: Player): seq<int>
    requires Inv(p)
  {
    if !p.state.Waiting? then []
    else
      var (t, x, r, n, next) := (p.target, p.targetPosition, p.readerTransitionPending, p.reader, p.transformSubject);
      match p.pending[0]
      case Connect => SubjectsWhenFlushed(t, x, r, n, next)
      case SeekTransform(_) => SubjectsWhenFlushed(t, UNSPECIFIED_TIME, r, n, next)
      case SeekSource(_) => SubjectsWhenFlushed(t, UNSPECIFIED_TIME, r, n, next)
      case Prime => SubjectsWhenPrimed(t, x, r, n, next)
      case Flush => SubjectsWhenFlushed(t, x, r, n, next)
      case Start(_) => SubjectsWhenPlaying(t, x, r, n, next)
      case Stop(_) => SubjectsWhenPrimed(t, x, r, n, next)
  }

  lemma UpdateNames(p: Player)
    requires Ready(p) && !p.state.Waiting? && !p.state.Inactive?
    ensures Inv(Update(p))
    ensures var (t, x, r, n, next) :=
              (p.target, p.targetPosition, p.readerTransitionPending, p.reader, p.transformSubject);
            Update(p).subjects + PlannedSubjects(Update(p)) == p.subjects +
              match p.state
              case Flushed => SubjectsWhenFlushed(t, x, r, n, next)
              case Primed => SubjectsWhenPrimed(t, x, r, n, next)
              case _ => SubjectsWhenPlaying(t, x, r, n, next)
  {
    UpdateKeeps(p);
    if p.state.Playing? && PlayedOut(p) {
      PlayedOutStops(p);
    }
  }

  lemma CompletionNames(p: Player)
    requires Inv(p) && p.state.Waiting?
    ensures Inv(Completed(p))
    ensures Completed(p).subjects + PlannedSubjects(Completed(p)) == p.subjects + PlannedSubjects(p)
  {
    CompletionKeeps(p);
    var done := p.(pending := []);
    match p.pending[0]
    case SeekTransform(_) =>
    case SeekSource(_) => UpdateNames(done.(targetPosition := UNSPECIFIED_TIME, state := Flushed));
    case Connect => UpdateNames(done.(state := Flushed, filled := false));
    case Prime => UpdateNames(done.(state := Primed, filled := true));
    case Flush => UpdateNames(done.(state := Flushed, filled := false));
    case Start(_) => UpdateNames(done.(state := Playing));
    case Stop(_) => UpdateNames(done.(state := Primed));
  }

  lemma {:induction false} SubjectsAsPlanned(p: Player)
    requires Inv(p)
    ensures Finish(p).subjects == p.subjects + PlannedSubjects(p)
    decreases Work(p)
  {
    if p.state.Waiting? {
      CompletionWorks(p);
      CompletionNames(p);
      SubjectsAsPlanned(Completed(p));
    }
  }

  /** A new reader that is to be played is started at its beginning, whatever the player was doing. */
  lemma NewReaderStartsAtZero(p: Player)
    requires Inv(p) && p.target.Playing?
    ensures var q := Commanded(p, SetReader(true));
            && Inv(q)
            && var named := Finish(q).subjects;
               |named| > |p.subjects| && named[|named| - 1] == 0
  {
    var q := Commanded(p, SetReader(true));
    CommandKeeps(p, SetReader(true));
    SubjectsAsPlanned(q);
  }

  predicate EndsWith(s: seq<int>, end: seq<int>) {
    |s| >= |end| && s[|s| - |end|..] == end
  }

  lemma EndsWithConcat(s: seq<int>, t: seq<int>, end: seq<int>)
    requires EndsWith(t, end)
    ensures EndsWith(s + t, end)
  {
    assert (s + t)[|s| + |t| - |end|..] == t[|t| - |end|..];
  }

  /** A seek that is carried out is announced to the renderers, and playing goes on from there. */
  lemma SeekAnnounced(p: Player, position: int)
    requires Inv(p) && position != UNSPECIFIED_TIME
    requires !p.state.Inactive? && !Leaving(p) && !InSourceSeek(p) && !InSeekTransform(p)
    ensures var q := Commanded(p, Seek(position));
            && Inv(q)
            && EndsWith(Finish(q).subjects, [position] + if p.target.Playing? then [UNSPECIFIED_TIME] else [])
  {
    var q := Commanded(p, Seek(position));
    var end := [position] + if p.target.Playing? then [UNSPECIFIED_TIME] else [];
    CommandKeeps(p, Seek(position));
    SubjectsAsPlanned(q);
    if p.state.Flushed? {
      assert q.subjects + PlannedSubjects(q) == p.subjects + end;
      EndsWithConcat(p.subjects, end, end);
    } else {
      SeekNames(q.target, position, q.readerTransitionPending, q.reader, q.transformSubject);
      EndsWithConcat([q.transformSubject], end, end);
      EndsWithConcat(q.subjects, PlannedSubjects(q), end);
    }
  }

  /**
   * If the renderers are just being told of another position, the source is asked to seek to the new one, but
   * the renderers are not told of it.
   */
  lemma SeekUnannounced(p: Player, position: int)
    requires Inv(p) && position != UNSPECIFIED_TIME && InSeekTransform(p)
    ensures var q := Commanded(p, Seek(position));
            Inv(q) && Finish(q).seeks == p.seeks + [position] && Finish(q).subjects == Finish(p).subjects
  {
    CommandKeeps(p, Seek(position));
    SeekHonoured(p, position);
    SubjectsAsPlanned(p);
    SubjectsAsPlanned(Commanded(p, Seek(position)));
  }

  lemma SeekNames(target: State, position: int, transition: bool, reader: bool, next: int)
    requires position != UNSPECIFIED_TIME && (transition ==> reader)
    ensures var end := [position] + if target.Playing? then [UNSPECIFIED_TIME] else [];
            && SubjectsWhenFlushed(target, position, transition, reader, next) == end
            && SubjectsWhenPrimed(target, position, transition, reader, next) == end
            && SubjectsWhenPlaying(target, position, transition, reader, next) == [next] + end
  {
  }

  // ----- runs

  ghost predicate Runs(p: Player, events: seq<Event>, q: Player)
    decreases |events|
  {
    if events == [] then p == q
    else (events[0].Completion? ==> |p.pending| == 1) && Runs(Next(p, events[0]), events[1..], q)
  }

  lemma {:induction false} RunKeeps(p: Player, events: seq<Event>, q: Player)
    requires Inv(p) && Runs(p, events, q)
    ensures Inv(q)
    decreases |events|
  {
    if events != [] {
      NextKeeps(p, events[0]);
      RunKeeps(Next(p, events[0]), events[1..], q);
    }
  }

  /**
   * On every run the player waits exactly while one operation is under way, primes and seeks only an
   * empty pipeline, flushes and starts only a filled one, and otherwise is where the client wants it.
   */
  lemma AlwaysOrderly(reader: bool, events: seq<Event>, q: Player)
    requires Runs(Created(reader), events, q)
    ensures q.state.Waiting? <==> |q.pending| == 1
    ensures |q.pending| <= 1
    ensures q.pending != [] ==>
              q.source && (q.filled <==> q.pending[0].Flush? || q.pending[0].Start? || q.pending[0].Stop?)
    ensures q.state.Flushed? ==> q.source && !q.filled
    ensures q.state.Primed? || q.state.Playing? ==> q.source && q.filled
    ensures !q.state.Waiting? ==> Settled(q)
    ensures q.pending != [] && q.pending[0].Stop? ==> q.pending[0].subject == UNSPECIFIED_TIME
  {
    RunKeeps(Created(reader), events, q);
  }

  /** A player that already seeks to 5 in its source is told to seek to 7, and 7 is forgotten. */
  lemma SeekForgotten() returns (p: Player)
    ensures Runs(Created(true), [Completion, Client(Seek(5)), Completion], p) && Inv(Commanded(p, Seek(7)))
    ensures Finish(Commanded(p, Seek(7))).seeks == [5]
  {
    var a := Completed(Created(true));
    var b := Commanded(a, Seek(5));
    p := Completed(b);
    assert Runs(p, [], p);
    assert Runs(b, [Completion], p);
    assert Runs(a, [Client(Seek(5)), Completion], p);
    RunKeeps(Created(true), [Completion, Client(Seek(5)), Completion], p);
    SeekHonoured(p, 7);
    assert p.seeks == [5] && InSourceSeek(p);
  }

  /** The reader is changed while the renderers are told of a seek to 5, and the source is asked for no position. */
  lemma UnspecifiedSeek() returns (p: Player)
    ensures Runs(Created(true), [Completion, Client(Seek(5))], p) && Inv(Commanded(p, SetReader(true)))
    ensures Finish(Commanded(p, SetReader(true))).seeks == [UNSPECIFIED_TIME]
  {
    var a := Completed(Created(true));
    p := Commanded(a, Seek(5));
    assert Runs(p, [], p);
    assert Runs(a, [Client(Seek(5))], p);
    RunKeeps(Created(true), [Completion, Client(Seek(5))], p);
    NewReaderSeeks(p, true);
    assert p.seeks == [] && InSeekTransform(p);
  }

  /** A seek to 7 while the renderers are told of 5: the source goes to 7 and the renderers expect 5. */
  lemma WrongAnnouncement() returns (p: Player)
    ensures Runs(Created(true), [Completion, Client(Seek(5))], p) && Inv(Commanded(p, Seek(7)))
    ensures Finish(Commanded(p, Seek(7))).seeks == [7] && Finish(Commanded(p, Seek(7))).subjects == [5]
  {
    p := UnspecifiedSeek();
    RunKeeps(Created(true), [Completion, Client(Seek(5))], p);
    assert p == Commanded(Completed(Created(true)), Seek(5)) by {
      var a := Completed(Created(true));
      assert Runs(a, [Client(Seek(5))], p) && Runs(Commanded(a, Seek(5)), [], p);
    }
    SeekUnannounced(p, 7);
    SubjectsAsPlanned(p);
  }
}
