// MediaPlayerImpl's fields and methods, proved to take the steps of MediaPlayers.

module MediaPlayerImpls {
  import opened MediaPlayers

  class MediaPlayerImpl {
    var state: State
    var targetState: State
    var targetPosition: int
    var transformSubjectTime: int
    var readerTransitionPending: bool
    var readerHandle: bool
    var source: bool
    var endOfStream: bool

    /** What is outside the player: operations under way, packets in the pipeline, seeks asked for, positions named. */
    ghost var pending: seq<Op>
    ghost var filled: bool
    ghost var seeks: seq<int>
    ghost var subjects: seq<int>

    ghost function Value(): Player
      reads this
    {
      Player(state, targetState, targetPosition, transformSubjectTime, readerTransitionPending, readerHandle, source,
             endOfStream, pending, filled, seeks, subjects)
    }

    constructor (reader: bool)
      ensures Value() == Created(reader) && Inv(Value())
    {
      state, targetState, targetPosition, transformSubjectTime := Inactive, Flushed, UNSPECIFIED_TIME, UNSPECIFIED_TIME;
      readerTransitionPending, readerHandle, source, endOfStream := false, reader, false, false;
      pending, filled, seeks, subjects := [], false, [], [];
      new;
      MaybeCreateSource();
    }

    method Begin(ghost op: Op)
      modifies this
      ensures Value() == MediaPlayers.Begin(old(Value()), op)
    {
      state := Waiting;
      pending := pending + [op];
    }

    method SetTimelineTransform(ghost op: Op)
      requires Subject(op) == transformSubjectTime
      modifies this
      ensures Value() == Transform(old(Value()), op)
    {
      subjects := subjects + [transformSubjectTime];
      transformSubjectTime := UNSPECIFIED_TIME;
      Begin(op);
    }

    method MaybeCreateSource()
      modifies this
      ensures Value() == MediaPlayers.MaybeCreateSource(old(Value()))
    {
      if !readerHandle {
        return;
      }
      readerHandle := false;
      source := true;
      Begin(Connect);
    }

    /** Takes action until there is nothing to do or something to wait for. */
    method Update()
      modifies this
      ensures Value() == MediaPlayers.Update(old(Value()))
    {
      while true
        invariant MediaPlayers.Update(Value()) == MediaPlayers.Update(old(Value()))
        decreases state.Playing?
      {
        match state
        case Inactive =>
          if readerTransitionPending {
            SwitchReader();
          }
          return;
        case Flushed =>
          if readerTransitionPending {
            SwitchReader();
          } else if targetPosition != UNSPECIFIED_TIME {
            transformSubjectTime := targetPosition;
            SetTimelineTransform(SeekTransform(transformSubjectTime));
          } else if targetState.Playing? || targetState.Primed? {
            Begin(Prime);
          }
          return;
        case Primed =>
          if targetPosition != UNSPECIFIED_TIME || targetState.Flushed? || readerTransitionPending {
            Begin(Flush);
          } else if targetState.Playing? {
            SetTimelineTransform(Start(transformSubjectTime));
          }
          return;
        case Playing =>
          if targetPosition != UNSPECIFIED_TIME || targetState.Flushed? || targetState.Primed? ||
             readerTransitionPending {
            SetTimelineTransform(Stop(transformSubjectTime));
            return;
          }
          if !endOfStream {
            return;
          }
          targetState := Primed;
          state := Primed;
        case Waiting =>
          return;
      }
    }

    method SwitchReader()
      modifies this
      ensures Value() == MediaPlayers.SwitchReader(old(Value()))
    {
      readerTransitionPending := false;
      state := Inactive;
      source := false;
      transformSubjectTime := 0;
      MaybeCreateSource();
    }

    // ----- what the client asks for

    method Play()
      requires Inv(Value())
      modifies this
      ensures Value() == Commanded(old(Value()), Command.Play) && Inv(Value())
    {
      CommandKeeps(Value(), Command.Play);
      targetState := Playing;
      Update();
    }

    method Pause()
      requires Inv(Value())
      modifies this
      ensures Value() == Commanded(old(Value()), Command.Pause) && Inv(Value())
    {
      CommandKeeps(Value(), Command.Pause);
      targetState := Primed;
      Update();
    }

    method Seek(position: int)
      requires Inv(Value())
      modifies this
      ensures Value() == Commanded(old(Value()), Command.Seek(position)) && Inv(Value())
    {
      CommandKeeps(Value(), Command.Seek(position));
      targetPosition := position;
      Update();
    }

    method SetReader(reader: bool)
      requires Inv(Value())
      modifies this
      ensures Value() == Commanded(old(Value()), Command.SetReader(reader)) && Inv(Value())
    {
      CommandKeeps(Value(), Command.SetReader(reader));
      if !reader && !source {
        return;
      }
      readerTransitionPending := true;
      readerHandle := reader;
      targetPosition := UNSPECIFIED_TIME;
      Update();
    }

    method HandleTimelineControlPointStatusUpdates(end: bool)
      requires Inv(Value())
      modifies this
      ensures Value() == StatusUpdated(old(Value()), end) && Inv(Value())
    {
      NextKeeps(Value(), Status(end));
      endOfStream := end;
      Update();
    }

    // ----- what the callbacks do

    method OnStreamsPrepared()
      requires Inv(Value()) && pending == [Connect]
      modifies this
      ensures Value() == Completed(old(Value())) && Inv(Value())
    {
      CompletionKeeps(Value());
      pending, filled := [], false;
      state := Flushed;
      Update();
    }

    /** The renderers know the position; now the source is asked to seek to the one wanted by now. */
    method OnSeekTransformSet()
      requires Inv(Value()) && |pending| == 1 && pending[0].SeekTransform?
      modifies this
      ensures Value() == Completed(old(Value())) && Inv(Value())
    {
      CompletionKeeps(Value());
      pending := [SeekSource(targetPosition)];
      seeks := seeks + [targetPosition];
    }

    method OnSeekCompleted()
      requires Inv(Value()) && |pending| == 1 && pending[0].SeekSource?
      modifies this
      ensures Value() == Completed(old(Value())) && Inv(Value())
    {
      CompletionKeeps(Value());
      pending := [];
      targetPosition := UNSPECIFIED_TIME;
      state := Flushed;
      Update();
    }

    method OnPrimed()
      requires Inv(Value()) && pending == [Prime]
      modifies this
      ensures Value() == Completed(old(Value())) && Inv(Value())
    {
      CompletionKeeps(Value());
      pending, filled := [], true;
      state := Primed;
      Update();
    }

    method OnFlushed()
      requires Inv(Value()) && pending == [Flush]
      modifies this
      ensures Value() == Completed(old(Value())) && Inv(Value())
    {
      CompletionKeeps(Value());
      pending, filled := [], false;
      state := Flushed;
      Update();
    }

    method OnStarted()
      requires Inv(Value()) && |pending| == 1 && pending[0].Start?
      modifies this
      ensures Value() == Completed(old(Value())) && Inv(Value())
    {
      CompletionKeeps(Value());
      pending := [];
      state := Playing;
      Update();
    }

    method OnStopped()
      requires Inv(Value()) && |pending| == 1 && pending[0].Stop?
      modifies this
      ensures Value() == Completed(old(Value())) && Inv(Value())
    {
      CompletionKeeps(Value());
      pending := [];
      state := Primed;
      Update();
    }
  }
}
