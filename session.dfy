/** The recording session of src/script.js: the globals `running`, `audioChunks`,
    `mediaRecorder` and `recognition` with the transcript text area, changed by the
    Start, Pause and Finalize buttons and by the callbacks of the speech recognizer and
    the media recorder. The browser's answers (microphone permission, whether speech
    recognition exists, the chunks and the recognised text) come in as arguments. */
module Session {
  import opened Optional
  import opened Text
  import Selection

  /** The states of a `MediaRecorder` that the script reaches. */
  datatype RecorderState = Inactive | Recording

  /** A `MediaRecorder`: its state, and whether Finalize has set its `onstop` handler
      to build the report. */
  datatype Recorder = Recorder(state: RecorderState, reportOnStop: bool)

  /** A speech recognizer, listening or not. */
  datatype Recognizer = Recognizer(listening: bool)

  /** `recognition.stop()` when there is a recognizer. */
  function Stopped(r: Option<Recognizer>): (s: Option<Recognizer>)
    ensures s.Some? <==> r.Some?
    ensures s.Some? ==> !s.value.listening
  {
    if r.Some? then Some(Recognizer(false)) else None
  }

  /** Each recognised piece followed by a space, in order: the `txt` of `onresult`. */
  function Spoken(pieces: seq<string>): (t: string)
    ensures |t| >= |pieces|
  {
    if pieces == [] then "" else Spoken(pieces[..|pieces| - 1]) + pieces[|pieces| - 1] + " "
  }

  /** The text an `onresult` event adds: the results from `resultIndex` on. */
  function NewText(results: seq<string>, resultIndex: nat): string {
    if resultIndex <= |results| then Spoken(results[resultIndex..]) else ""
  }

  /** A chunk that `ondataavailable` keeps: present and of non-zero size. */
  function Kept(data: Option<Selection.Chunk>): (r: seq<Selection.Chunk>)
    ensures |r| <= 1
    ensures r != [] <==> data.Some? && data.value.bytes != []
    ensures r != [] ==> r[0] == data.value
  {
    if data.Some? && |data.value.bytes| > 0 then [data.value] else []
  }

  class Recording {
    var running: bool
    var audioChunks: seq<Selection.Chunk>
    /** The value of the transcript text area. */
    var transcript: string
    var recorder: Option<Recorder>
    var recognition: Option<Recognizer>
    const sessionId: string

    /** A recording recorder means the session runs, and a running session has a
        recorder (which may have stopped on its own); a listening recognizer means the
        session runs (a running session's recognizer may have stopped on its own); the
        stop handler that builds the report is only ever
        set on a stopped recorder of a session that no longer runs. */
    predicate Valid()
      reads this
    {
      && (running ==> recorder.Some?)
      && (recorder.Some? && recorder.value.state == Recording ==> running)
      && (recognition.Some? && recognition.value.listening ==> running)
      && (recorder.Some? && recorder.value.reportOnStop ==> recorder.value.state == Inactive && !running)
    }

    /** Page load: nothing recorded yet, and a session id `ff_` followed by the random
        base-36 digits. */
    constructor(randomDigits: string)
      ensures Valid()
      ensures sessionId == "ff_" + randomDigits
      ensures !running && audioChunks == [] && transcript == [] && recorder == None && recognition == None
    {
      sessionId := "ff_" + randomDigits;
      running := false;
      audioChunks := [];
      transcript := [];
      recorder := None;
      recognition := None;
    }

    /** The Start button. `permission` is whether `getUserMedia` grants the microphone;
        `speechApi` whether the browser has a speech recognizer. */
    method Start(permission: bool, speechApi: bool)
      requires Valid()
      modifies this
      ensures Valid()
      ensures old(running) ==>
        && running && audioChunks == old(audioChunks) && transcript == old(transcript)
        && recorder == old(recorder) && recognition == old(recognition)
      ensures !old(running) ==> audioChunks == [] && transcript == []
      ensures !old(running) && !permission ==>
        !running && recorder == None && recognition == old(recognition)
      ensures !old(running) && permission ==>
        && running && recorder == Some(Recorder(Recording, false))
        && recognition == (if speechApi then Some(Recognizer(true)) else None)
    {
      if running {
        return;
      }
      audioChunks := [];
      transcript := [];
      if !permission {
        recorder := None;
        return;
      }
      recorder := Some(Recorder(Inactive, false));
      recognition := if speechApi then Some(Recognizer(false)) else None;
      if recognition.Some? {
        recognition := Some(Recognizer(true));
      }
      recorder := Some(Recorder(Recording, false));
      running := true;
    }

    /** The Pause button: stops recognizer and recorder, keeping what was recorded. */
    method Pause()
      requires Valid()
      modifies this
      ensures Valid()
      ensures !old(running) ==>
        && !running && audioChunks == old(audioChunks) && transcript == old(transcript)
        && recorder == old(recorder) && recognition == old(recognition)
      ensures old(running) ==>
        && !running && audioChunks == old(audioChunks) && transcript == old(transcript)
        && recorder == Some(Recorder(Inactive, old(recorder).value.reportOnStop))
        && recognition == Stopped(old(recognition))
    {
      if !running {
        return;
      }
      running := false;
      if recognition.Some? {
        recognition := Stopped(recognition);
      }
      if recorder.Some? && recorder.value.state != Inactive {
        recorder := Some(Recorder(Inactive, recorder.value.reportOnStop));
      }
    }

    /** The Finalize button. `buildNow` says that the report is built at once; otherwise
        the recorder is stopped and the report is built by its stop callback. */
    method Finalize() returns (buildNow: bool)
      requires Valid()
      modifies this
      ensures Valid()
      ensures buildNow <==> old(recorder).None? || old(recorder).value.state == Inactive
      ensures !old(running) ==> buildNow
      ensures buildNow ==>
        && running == old(running) && audioChunks == old(audioChunks) && transcript == old(transcript)
        && recorder == old(recorder) && recognition == old(recognition)
      ensures !buildNow ==>
        && !running && audioChunks == old(audioChunks) && transcript == old(transcript)
        && recorder == Some(Recorder(Inactive, true))
        && recognition == Stopped(old(recognition))
    {
      if recorder.None? || recorder.value.state == Inactive {
        return true;
      }
      running := false;
      if recognition.Some? {
        recognition := Stopped(recognition);
      }
      recorder := Some(Recorder(Recording, true));
      recorder := Some(Recorder(Inactive, true));
      buildNow := false;
    }

    /** The recorder's stop event: the report is built exactly when Finalize set the
        handler, and then capture has stopped: the session no longer runs and the
        recorder is inactive. */
    method OnRecorderStop() returns (build: bool)
      requires Valid() && recorder.Some?
      ensures build <==> recorder.value.reportOnStop
      ensures build ==> !running && recorder.value.state == Inactive
    {
      build := recorder.value.reportOnStop;
    }

    /** The recorder stops by itself (its track ends, or it fails): it becomes
        inactive while `running` stays as it was. */
    method OnRecorderInactive()
      requires Valid() && recorder.Some?
      modifies this
      ensures Valid()
      ensures recorder == Some(Recorder(Inactive, old(recorder).value.reportOnStop))
      ensures running == old(running) && audioChunks == old(audioChunks) && transcript == old(transcript)
      ensures recognition == old(recognition)
    {
      recorder := Some(Recorder(Inactive, recorder.value.reportOnStop));
    }

    /** `ondataavailable`: a present, non-empty chunk is appended. */
    method OnData(data: Option<Selection.Chunk>)
      requires Valid()
      modifies this
      ensures Valid()
      ensures audioChunks == old(audioChunks) + Kept(data)
      ensures running == old(running) && transcript == old(transcript)
      ensures recorder == old(recorder) && recognition == old(recognition)
    {
      if data.Some? && |data.value.bytes| > 0 {
        audioChunks := audioChunks + [data.value];
      }
    }

    /** `onresult`: the first alternative of each result from `resultIndex` on is
        appended to the transcript, each followed by a space, after one more space;
        then the whole text is trimmed. */
    method OnResult(results: seq<string>, resultIndex: nat)
      requires Valid()
      modifies this
      ensures Valid()
      ensures transcript == Trim(old(transcript) + " " + NewText(results, resultIndex))
      ensures Trim(old(transcript)) <= transcript
      ensures running == old(running) && audioChunks == old(audioChunks)
      ensures recorder == old(recorder) && recognition == old(recognition)
    {
      var txt := "";
      var i := resultIndex;
      while i < |results|
        invariant resultIndex <= |results| ==>
          resultIndex <= i <= |results| && txt == Spoken(results[resultIndex..i])
        invariant resultIndex > |results| ==> i == resultIndex && txt == ""
        decreases |results| - i
      {
        assert results[resultIndex..i + 1] == results[resultIndex..i] + [results[i]];
        txt := txt + results[i] + " ";
        i := i + 1;
      }
      if resultIndex <= |results| {
        assert results[resultIndex..i] == results[resultIndex..];
      }
      TrimKeepsPrefix(transcript, txt);
      transcript := Trim(transcript + " " + txt);
    }

    /** The recognizer stops by itself (silence, a network error): it stops listening
        while `running` stays as it was. Its `onend` event follows. */
    method OnRecognizerStopped()
      requires Valid() && recognition.Some?
      modifies this
      ensures Valid()
      ensures recognition == Some(Recognizer(false))
      ensures running == old(running) && audioChunks == old(audioChunks) && transcript == old(transcript)
      ensures recorder == old(recorder)
    {
      recognition := Some(Recognizer(false));
    }

    /** `onend` of the recognizer: it restarts only while the session runs. */
    method OnRecognitionEnd()
      requires Valid() && recognition.Some?
      modifies this
      ensures Valid()
      ensures recognition == Some(Recognizer(running))
      ensures running == old(running) && audioChunks == old(audioChunks) && transcript == old(transcript)
      ensures recorder == old(recorder)
    {
      recognition := Some(Recognizer(false));
      if running {
        recognition := Some(Recognizer(true));
      }
    }

    /** `processFinalReport`: the form sent holds the session id, the trimmed transcript
        and the chunks; the report shown is chosen from the backend's reply, and is
        announced as the backend's exactly when it is. */
    method ProcessFinalReport(reply: Selection.Reply, datetime: string)
      returns (form: Selection.Submission, shown: Selection.Source, fromBackend: bool)
      ensures form.sessionId == sessionId && form.transcript == Trim(transcript)
      ensures form.audio.Some? <==> audioChunks != []
      ensures form.audio.Some? ==> form.audio.value == Selection.Audio(audioChunks, sessionId + ".webm")
      ensures shown == Selection.SelectReport(reply, Trim(transcript), datetime)
      ensures fromBackend <==> shown.Remote?
    {
      var text := Trim(transcript);
      form := Selection.BuildSubmission(sessionId, transcript, audioChunks);
      fromBackend := Selection.FromBackend(reply);
      shown := Selection.SelectReport(reply, text, datetime);
      Selection.FromBackendIffRemote(reply, text, datetime);
    }
  }
}
