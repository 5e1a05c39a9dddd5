/** The per-attachment loop of the `/upload` handler (index.js 140-163): every
    attachment is read, classified, and copied under its new name into the
    `processed` directory; unclassified attachments are skipped. The directory is
    modelled as a map from file name to content, and `copyFileSync`, which
    overwrites an existing file, as a map update. */
module Processor {

  import opened Wrappers
  import opened Seqs
  import opened Hex
  import opened Signature
  import opened Rename

  /** One entry of the `attachments` directory: its name and its content. */
  datatype Attachment = Attachment(name: string, content: Bytes)

  /** The `processed` directory: file name to content. */
  type Output = map<string, Bytes>

  /** One iteration of the loop: copy a classified attachment under its new name,
      leave the output alone for an unclassified one. */
  function Step(out: Output, a: Attachment): Output
  {
    match Classify(a.content)
    case None => out
    case Some(tag) => out[NewName(a.name, tag) := a.content]
  }

  /** Attachment `a` is classified and its new name is `key`. */
  predicate StepWrites(a: Attachment, key: string)
  {
    var t := Classify(a.content);
    t.Some? && NewName(a.name, t.value) == key
  }

  /** One step adds at most the new name of the attachment it handles. */
  lemma StepKeys(out: Output, a: Attachment, key: string)
    ensures key in Step(out, a) <==> key in out || StepWrites(a, key)
    ensures StepWrites(a, key) ==> Step(out, a)[key] == a.content
    ensures !StepWrites(a, key) && key in out ==> Step(out, a)[key] == out[key]
  {
  }

  /** The whole loop over the attachments, in enumeration order, starting from an
      empty `processed` directory. */
  function Process(atts: seq<Attachment>): Output
  {
    if |atts| == 0 then map[]
    else Step(Process(atts[..|atts| - 1]), atts[|atts| - 1])
  }

  /** Appending one attachment to the enumeration adds one `Step`. */
  lemma ProcessSnoc(atts: seq<Attachment>, a: Attachment)
    ensures Process(atts + [a]) == Step(Process(atts), a)
  {
    assert (atts + [a])[..|atts|] == atts;
  }

  /** A classified attachment is copied under its new name, replacing any earlier copy. */
  lemma StepClassified(out: Output, a: Attachment, tag: Tag)
    requires Classify(a.content) == Some(tag)
    ensures Step(out, a) == out[NewName(a.name, tag) := a.content]
  {
  }

  /** An unclassified attachment leaves the output as it was. */
  lemma StepSkipped(out: Output, a: Attachment)
    requires Classify(a.content) == None
    ensures Step(out, a) == out
  {
  }

  /** The output of two attachments, step by step. */
  lemma ProcessPair(a: Attachment, b: Attachment)
    ensures Process([a, b]) == Step(Step(map[], a), b)
  {
    ProcessSnoc([], a);
    ProcessSnoc([a], b);
    assert [a] + [b] == [a, b];
  }

  /** Attachment `i` is classified and its new name is `key`. */
  predicate WritesTo(atts: seq<Attachment>, i: int, key: string)
    requires 0 <= i < |atts|
  {
    StepWrites(atts[i], key)
  }

  /** Attachment `i` writes `key` and no later attachment does. */
  predicate LastWriter(atts: seq<Attachment>, i: int, key: string)
    requires 0 <= i < |atts|
  {
    WritesTo(atts, i, key) && forall j :: i < j < |atts| ==> !WritesTo(atts, j, key)
  }

  /** A name ending in `.pdf`, `.png` or `.mp4`. */
  predicate Tagged(key: string)
  {
    exists t: Tag :: EndsWith(key, "." + Extension(t))
  }

  /** A name is in the output exactly when some attachment is renamed to it. */
  lemma {:induction false} ProcessHasKey(atts: seq<Attachment>, key: string)
    ensures key in Process(atts) <==> exists i :: 0 <= i < |atts| && WritesTo(atts, i, key)
  {
    hide Classify, NewName;
    if |atts| > 0 {
      var n := |atts|;
      var prefix := atts[..n - 1];
      assert atts == prefix + [atts[n - 1]];
      ProcessSnoc(prefix, atts[n - 1]);
      StepKeys(Process(prefix), atts[n - 1], key);
      ProcessHasKey(prefix, key);
      assert WritesTo(atts, n - 1, key) <==> StepWrites(atts[n - 1], key);
      if key in Process(atts) {
        if key in Process(prefix) {
          var i :| 0 <= i < n - 1 && WritesTo(prefix, i, key);
          assert prefix[i] == atts[i];
          assert WritesTo(atts, i, key);
        } else {
          assert WritesTo(atts, n - 1, key);
        }
      }
      if exists i :: 0 <= i < n && WritesTo(atts, i, key) {
        var i :| 0 <= i < n && WritesTo(atts, i, key);
        if i < n - 1 {
          assert prefix[i] == atts[i];
          assert WritesTo(prefix, i, key);
        }
      }
    }
  }

  /** The output holds exactly the new names of the classified attachments. */
  lemma ProcessKeys(atts: seq<Attachment>)
    ensures forall key :: key in Process(atts) <==> exists i :: 0 <= i < |atts| && WritesTo(atts, i, key)
  {
    hide Classify, NewName;
    forall key
      ensures key in Process(atts) <==> exists i :: 0 <= i < |atts| && WritesTo(atts, i, key)
    {
      ProcessHasKey(atts, key);
    }
  }

  /** Each output entry holds the content of the last attachment written under its
      name: a later attachment with the same new name overwrites an earlier one. */
  lemma {:induction false} ProcessLastWins(atts: seq<Attachment>, i: int, key: string)
    requires 0 <= i < |atts| && LastWriter(atts, i, key)
    ensures key in Process(atts) && Process(atts)[key] == atts[i].content
  {
    hide Classify, NewName;
    var n := |atts|;
    var prefix := atts[..n - 1];
    assert Process(atts) == Step(Process(prefix), atts[n - 1]);
    StepKeys(Process(prefix), atts[n - 1], key);
    if i == n - 1 {
      assert StepWrites(atts[n - 1], key);
    } else {
      assert !WritesTo(atts, n - 1, key);
      assert prefix[i] == atts[i];
      forall j | i < j < n - 1
        ensures !WritesTo(prefix, j, key)
      {
        assert prefix[j] == atts[j];
        assert !WritesTo(atts, j, key);
      }
      ProcessLastWins(prefix, i, key);
    }
  }

  /** Every output entry is an exact copy of an attachment that was written under its name. */
  lemma ProcessCopiesContent(atts: seq<Attachment>, key: string)
    requires key in Process(atts)
    ensures exists i :: 0 <= i < |atts| && LastWriter(atts, i, key) && Process(atts)[key] == atts[i].content
  {
    hide Classify, NewName;
    ProcessKeys(atts);
    var i :| 0 <= i < |atts| && WritesTo(atts, i, key);
    while !LastWriter(atts, i, key)
      invariant 0 <= i < |atts| && WritesTo(atts, i, key)
      decreases |atts| - i
    {
      var later :| i < later < |atts| && WritesTo(atts, later, key);
      i := later;
    }
    ProcessLastWins(atts, i, key);
  }

  /** Every output name ends in `.pdf`, `.png` or `.mp4`. */
  lemma ProcessKeysTagged(atts: seq<Attachment>)
    ensures forall key :: key in Process(atts) ==> Tagged(key)
  {
    hide Classify, NewName;
    ProcessKeys(atts);
    forall key | key in Process(atts)
      ensures Tagged(key)
    {
      var i :| 0 <= i < |atts| && WritesTo(atts, i, key);
      var t := Classify(atts[i].content).value;
      assert EndsWith(key, "." + Extension(t));
    }
  }

  /** The output never has more entries than there are attachments. */
  lemma {:induction false} ProcessSize(atts: seq<Attachment>)
    ensures |Process(atts)| <= |atts|
  {
    hide Classify, NewName;
    if |atts| > 0 {
      ProcessSize(atts[..|atts| - 1]);
    }
  }

  /** An unclassified attachment contributes nothing, wherever it sits in the
      enumeration, and the attachments after it are still processed. */
  lemma {:induction false} SkipUnclassified(before: seq<Attachment>, x: Attachment, after: seq<Attachment>)
    requires Classify(x.content) == None
    ensures Process(before + [x] + after) == Process(before + after)
  {
    hide Classify, NewName;
    if |after| == 0 {
      ProcessSnoc(before, x);
      assert before + [x] + after == before + [x];
      assert before + after == before;
    } else {
      var init := after[..|after| - 1];
      var last := after[|after| - 1];
      SkipUnclassified(before, x, init);
      ProcessSnoc(before + [x] + init, last);
      ProcessSnoc(before + init, last);
      assert before + [x] + after == (before + [x] + init) + [last];
      assert before + after == (before + init) + [last];
    }
  }

  /** With no classifiable attachment (in particular with none at all) the output is empty. */
  lemma NothingClassified(atts: seq<Attachment>)
    requires forall i :: 0 <= i < |atts| ==> Classify(atts[i].content) == None
    ensures Process(atts) == map[]
  {
    hide Classify, NewName;
    ProcessKeys(atts);
  }

  /** The loop as the handler runs it: one `Step` per attachment, in order. */
  method ProcessLoop(atts: seq<Attachment>) returns (out: Output)
    ensures out == Process(atts)
    ensures |out| <= |atts|
    ensures forall key :: key in out ==> Tagged(key)
  {
    hide Classify, NewName;
    out := map[];
    var i := 0;
    while i < |atts|
      invariant 0 <= i <= |atts|
      invariant out == Process(atts[..i])
    {
      assert atts[..i + 1][..i] == atts[..i];
      out := Step(out, atts[i]);
      i := i + 1;
    }
    assert atts[..i] == atts;
    ProcessSize(atts);
    ProcessKeysTagged(atts);
  }

}
