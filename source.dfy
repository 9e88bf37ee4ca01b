/** Where the dashboard's table comes from on each rerun of the script: an
    uploaded CSV, the bundled sample, or nothing (the script stops). The
    choice of the sample survives reruns in the session state. */
module DataSource {
  import opened Tables
  import opened Cells

  /** What one rerun does before the analysis sections run. */
  datatype Outcome =
    | Uploaded(data: Table)        // "File uploaded successfully!"
    | SampleLoaded(data: Table)    // "Sample dataset loaded successfully!"
    | SampleReloaded(data: Table)  // the remembered sample, silently
    | Stopped                      // the upload prompt, then st.stop()

  /** The branch taken at lines 29-41 given the uploader, the button and
      the remembered flag; `sample` is the bundled CSV as read. */
  function Choose(upload: Option<Table>, sampleButton: bool, useSample: bool, sample: Table): (o: Outcome)
    ensures o.Uploaded? <==> upload.Some?
    ensures o.Uploaded? ==> o.data == upload.value
    ensures o.SampleLoaded? <==> upload.None? && sampleButton
    ensures o.SampleReloaded? <==> upload.None? && !sampleButton && useSample
    ensures o.Stopped? <==> upload.None? && !sampleButton && !useSample
    ensures o.SampleLoaded? || o.SampleReloaded? ==> o.data == sample
  {
    if upload.Some? then Uploaded(upload.value)
    else if sampleButton then SampleLoaded(sample)
    else if useSample then SampleReloaded(sample)
    else Stopped
  }

  /** The remembered flag after the rerun: an upload clears it, the button
      sets it, anything else leaves it as it was. */
  function NextUseSample(upload: Option<Table>, sampleButton: bool, useSample: bool): (b: bool)
    ensures upload.Some? ==> !b
    ensures upload.None? && sampleButton ==> b
    ensures upload.None? && !sampleButton ==> b == useSample
  {
    if upload.Some? then false
    else if sampleButton then true
    else useSample
  }

  /** The session state of one browser session. */
  class Session {
    var useSample: bool

    /** Lines 22-23: a fresh session does not use the sample. */
    constructor()
      ensures !useSample
    {
      useSample := false;
    }

    /** One run of the script's data-loading prologue. */
    method Rerun(upload: Option<Table>, sampleButton: bool, sample: Table) returns (o: Outcome)
      modifies this
      ensures o == Choose(upload, sampleButton, old(useSample), sample)
      ensures useSample == NextUseSample(upload, sampleButton, old(useSample))
    {
      if upload.Some? {
        o := Uploaded(upload.value);
        useSample := false;
      } else if sampleButton {
        o := SampleLoaded(sample);
        useSample := true;
      } else if useSample {
        o := SampleReloaded(sample);
      } else {
        o := Stopped;
      }
    }
  }

  /** The inputs of one rerun. */
  datatype Event = Event(upload: Option<Table>, sampleButton: bool)

  /** An event that decides the flag: a file is present or the button was
      pressed. */
  predicate Decisive(e: Event) {
    e.upload.Some? || e.sampleButton
  }

  /** The flag after a session's reruns, from a fresh session. */
  function FlagAfter(events: seq<Event>): bool {
    if events == [] then false
    else
      var last := events[|events| - 1];
      NextUseSample(last.upload, last.sampleButton, FlagAfter(events[..|events| - 1]))
  }

  /** The sample is in use exactly when the last rerun that had a file or a
      button press had the button press and no file. */
  lemma {:induction false} FlagAfterLastDecisive(events: seq<Event>)
    ensures FlagAfter(events) <==>
              exists i :: 0 <= i < |events| && events[i].upload.None? && events[i].sampleButton
                          && forall j :: i < j < |events| ==> !Decisive(events[j])
  {
    if events != [] {
      var n := |events| - 1;
      var init := events[..n];
      FlagAfterLastDecisive(init);
      if Decisive(events[n]) {
        if events[n].upload.Some? {
          forall i | 0 <= i < |events| && events[i].upload.None?
            ensures exists j :: i < j < |events| && Decisive(events[j])
          {
            assert i < n && Decisive(events[n]);
          }
        }
      } else {
        QuietRerun(events);
      }
    }
  }

  /** A rerun with neither file nor button press changes neither side of
      the equivalence. */
  lemma QuietRerun(events: seq<Event>)
    requires events != [] && !Decisive(events[|events| - 1])
    requires var init := events[..|events| - 1];
      FlagAfter(init) <==>
        exists i :: 0 <= i < |init| && init[i].upload.None? && init[i].sampleButton
                    && forall j :: i < j < |init| ==> !Decisive(init[j])
    ensures FlagAfter(events) <==>
              exists i :: 0 <= i < |events| && events[i].upload.None? && events[i].sampleButton
                          && forall j :: i < j < |events| ==> !Decisive(events[j])
  {
    var n := |events| - 1;
    var init := events[..n];
    assert FlagAfter(events) == FlagAfter(init);
    if FlagAfter(init) {
      var i :| 0 <= i < |init| && init[i].upload.None? && init[i].sampleButton
               && forall j :: i < j < |init| ==> !Decisive(init[j]);
      assert events[i] == init[i];
      assert forall j :: i < j < |events| ==> !Decisive(events[j]) by {
        forall j | i < j < |events| ensures !Decisive(events[j]) {
          if j < n { assert events[j] == init[j]; }
        }
      }
    }
    if exists i :: 0 <= i < |events| && events[i].upload.None? && events[i].sampleButton
                   && forall j :: i < j < |events| ==> !Decisive(events[j]) {
      var i :| 0 <= i < |events| && events[i].upload.None? && events[i].sampleButton
               && forall j :: i < j < |events| ==> !Decisive(events[j]);
      assert i < n;
      assert init[i] == events[i];
      assert forall j :: i < j < |init| ==> !Decisive(init[j]) by {
        forall j | i < j < |init| ensures !Decisive(init[j]) {
          assert init[j] == events[j];
        }
      }
    }
  }

  /** A session that has never pressed the button stops on every rerun
      without a file. */
  lemma NoButtonNoSample(events: seq<Event>, upload: Option<Table>, sample: Table)
    requires forall i :: 0 <= i < |events| ==> !events[i].sampleButton
    ensures !FlagAfter(events)
    ensures upload.None? ==> Choose(upload, false, FlagAfter(events), sample) == Stopped
  {
    FlagAfterLastDecisive(events);
  }
}
