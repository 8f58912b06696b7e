/**
 * The POST checks of the test reply helpers
 * (src/tests/client_server/libtest_convenience_server_reply.c): nstrcmp,
 * post_stream_reader, check_complete_value and post_stream_done, over the
 * array of expected fields (struct MHDT_PostWant) that they update in place.
 */
module PostCheck {
  import opened Wrappers
  import opened TextSplit
  import opened ReplyActions
  import opened CStrings

  /**
   * struct MHDT_PostWant: one expected field. value_size is |value|; valueOff is
   * how much of an incremental value has been seen so far.
   */
  datatype Want = Want(
    key: string,
    filename: Option<string>,
    contentType: Option<string>,
    value: string,
    incremental: bool,
    valueOff: nat,
    satisfied: bool)

  /** One call of the stream reader: a piece of the value of field name, at offset off. */
  datatype Fragment = Fragment(
    name: string,
    filename: Option<string>,
    contentType: Option<string>,
    data: string,
    off: nat)

  /** Everything but the progress of a want stays as it was. */
  predicate SameExpectation(a: Want, b: Want) {
    a.key == b.key && a.filename == b.filename && a.contentType == b.contentType
    && a.value == b.value && a.incremental == b.incremental
  }

  /** The fragment belongs to this want: same key, filename and content type, as strcmp sees them. */
  predicate Addresses(w: Want, f: Fragment) {
    StrEq(w.key, f.name) && NStrEq(w.filename, f.filename) && NStrEq(w.contentType, f.contentType)
  }

  /** The effect of post_stream_reader on one want. */
  function StreamStep(w: Want, f: Fragment): (r: Want)
    ensures SameExpectation(r, w)
    ensures w.valueOff <= |w.value| ==> r.valueOff <= |r.value|
    ensures r != w ==>
      && !w.satisfied && w.incremental && Addresses(w, f)
      && f.off == w.valueOff && f.off + |f.data| <= |w.value|
      && w.value[f.off..f.off + |f.data|] == f.data
      && r.valueOff == w.valueOff + |f.data|
      && r.satisfied == (r.valueOff == |w.value|)
    ensures
      && !w.satisfied && w.incremental && Addresses(w, f)
      && f.off == w.valueOff && f.off + |f.data| <= |w.value|
      && w.value[f.off..f.off + |f.data|] == f.data
      ==> r == w.(valueOff := w.valueOff + |f.data|, satisfied := w.valueOff + |f.data| == |w.value|)
  {
    if w.satisfied then w
    else if !StrEq(w.key, f.name) then w
    else if !NStrEq(w.filename, f.filename) then w
    else if !NStrEq(w.contentType, f.contentType) then w
    else if !w.incremental then w
    else if w.valueOff != f.off then w
    else if |w.value| < f.off + |f.data| then w
    else if f.data != w.value[f.off..f.off + |f.data|] then w
    else
      var off := w.valueOff + |f.data|;
      w.(valueOff := off, satisfied := |w.value| == off)
  }

  /** The fragments of one field, delivered one after the other from offset off. */
  function Deliver(w: Want, name: string, filename: Option<string>, contentType: Option<string>,
                   pieces: seq<string>, off: nat): Want
    decreases |pieces|
  {
    if pieces == [] then w
    else
      var w' := StreamStep(w, Fragment(name, filename, contentType, pieces[0], off));
      Deliver(w', name, filename, contentType, pieces[1..], off + |pieces[0]|)
  }

  /**
   * An incremental want whose remaining value arrives in order, split into any
   * non-empty list of pieces at the offsets the upload parser reports, ends up
   * satisfied with its whole value seen: splitting the upload differently (as a
   * suspend and resume would) does not change the outcome.
   */
  lemma {:induction false} DeliveryInPiecesSatisfies(w: Want, pieces: seq<string>)
    requires w.incremental && !w.satisfied
    requires w.valueOff <= |w.value|
    requires pieces != []
    requires Concat(pieces) == w.value[w.valueOff..]
    ensures var r := Deliver(w, w.key, w.filename, w.contentType, pieces, w.valueOff);
      SameExpectation(r, w) && r.satisfied && r.valueOff == |w.value|
    decreases |pieces|
  {
    var f := Fragment(w.key, w.filename, w.contentType, pieces[0], w.valueOff);
    var p := pieces[0];
    assert w.value[w.valueOff..] == p + Concat(pieces[1..]);
    assert w.valueOff + |p| <= |w.value|;
    assert w.value[w.valueOff..w.valueOff + |p|] == p by {
      assert w.value[w.valueOff..][..|p|] == p;
    }
    var w' := StreamStep(w, f);
    assert w'.valueOff == w.valueOff + |p|;
    if pieces[1..] == [] {
      assert Concat(pieces[1..]) == [];
      assert w'.satisfied;
    } else if w'.satisfied {
      DeliverSatisfiedStays(w', w.key, w.filename, w.contentType, pieces[1..], w'.valueOff);
      assert w'.valueOff == |w.value| by {
        assert w'.valueOff == |w'.value|;
      }
    } else {
      assert w.value[w'.valueOff..] == Concat(pieces[1..]) by {
        assert w.value[w.valueOff..][|p|..] == w.value[w'.valueOff..];
      }
      DeliveryInPiecesSatisfies(w', pieces[1..]);
    }
  }

  /** A satisfied want is never touched again. */
  lemma {:induction false} DeliverSatisfiedStays(w: Want, name: string, filename: Option<string>,
                                                 contentType: Option<string>, pieces: seq<string>, off: nat)
    requires w.satisfied
    ensures Deliver(w, name, filename, contentType, pieces, off) == w
    decreases |pieces|
  {
    if pieces != [] {
      DeliverSatisfiedStays(w, name, filename, contentType, pieces[1..], off + |pieces[0]|);
    }
  }

  /** value_off never exceeds value_size. */
  ghost predicate OffsetsInRange(ws: seq<Want>) {
    forall i :: 0 <= i < |ws| ==> ws[i].valueOff <= |ws[i].value|
  }

  /**
   * post_stream_reader: offer the fragment to every want (the array up to its
   * NULL-key terminator; null when pi->wants is NULL). Always continues.
   */
  method PostStreamReader(wants: array?<Want>, f: Fragment) returns (act: UploadAction)
    modifies wants
    ensures act == UploadContinue
    ensures wants != null ==>
      forall i :: 0 <= i < wants.Length ==> wants[i] == StreamStep(old(wants[i]), f)
    ensures wants != null && OffsetsInRange(old(wants[..])) ==> OffsetsInRange(wants[..])
  {
    if wants != null {
      var i := 0;
      while i < wants.Length
        invariant 0 <= i <= wants.Length
        invariant forall j :: 0 <= j < i ==> wants[j] == StreamStep(old(wants[j]), f)
        invariant forall j :: i <= j < wants.Length ==> wants[j] == old(wants[j])
      {
        var next := StreamStep(wants[i], f);
        wants[i] := next;
        i := i + 1;
      }
    }
    return UploadContinue;
  }

  /** The effect of check_complete_value on one want, for the POST value name = value. */
  function CompleteStep(w: Want, name: string, value: string): (r: Want)
    ensures r == w || r == w.(satisfied := true)
    ensures r.satisfied <==>
      w.satisfied || (!w.incremental && CString(w.key) == CString(name) && w.value == value)
  {
    if w.satisfied then w
    else if w.incremental then w
    else if !StrEq(w.key, name) then w
    else if |w.value| != |value| then w
    else if value == w.value then w.(satisfied := true)
    else w
  }

  /**
   * check_complete_value: mark the complete (non-incremental) wants this value
   * satisfies. Answers NO when there are no wants, which stops the iteration.
   */
  method CheckCompleteValue(wants: array?<Want>, name: string, value: string) returns (more: bool)
    modifies wants
    ensures more <==> wants != null
    ensures wants != null ==>
      forall i :: 0 <= i < wants.Length ==> wants[i] == CompleteStep(old(wants[i]), name, value)
  {
    if wants == null {
      return false;
    }
    var i := 0;
    while i < wants.Length
      invariant 0 <= i <= wants.Length
      invariant forall j :: 0 <= j < i ==> wants[j] == CompleteStep(old(wants[j]), name, value)
      invariant forall j :: i <= j < wants.Length ==> wants[j] == old(wants[j])
    {
      var w := wants[i];
      wants[i] := CompleteStep(w, name, value);
      i := i + 1;
    }
    return true;
  }

  /** One want after every POST value has been offered to check_complete_value. */
  function CompleteAll(w: Want, postData: seq<(string, string)>): Want
    decreases |postData|
  {
    if postData == [] then w
    else CompleteAll(CompleteStep(w, postData[0].0, postData[0].1), postData[1..])
  }

  /** Some POST value has this key (as strcmp compares names) and exactly this value. */
  predicate PostHas(postData: seq<(string, string)>, key: string, value: string) {
    exists i :: 0 <= i < |postData| && StrEq(postData[i].0, key) && postData[i].1 == value
  }

  /** When no name holds a NUL, the strcmp match is plain membership of the pair. */
  lemma PostHasNulFree(postData: seq<(string, string)>, key: string, value: string)
    requires '\0' !in key
    requires forall i :: 0 <= i < |postData| ==> '\0' !in postData[i].0
    ensures PostHas(postData, key, value) <==> (key, value) in postData
  {
    if PostHas(postData, key, value) {
      var i :| 0 <= i < |postData| && StrEq(postData[i].0, key) && postData[i].1 == value;
      StrEqNulFree(postData[i].0, key);
      assert postData[i] == (key, value);
    }
    if (key, value) in postData {
      var i :| 0 <= i < |postData| && postData[i] == (key, value);
      StrEqNulFree(postData[i].0, key);
    }
  }

  /**
   * After the pass over the POST values a want is satisfied exactly when it was
   * already, or it is a complete (non-incremental) want whose key and value
   * appear as one of the values; nothing else about it changes.
   */
  lemma {:induction false} CompleteAllSatisfied(w: Want, postData: seq<(string, string)>)
    ensures CompleteAll(w, postData) == w.(satisfied := CompleteAll(w, postData).satisfied)
    ensures CompleteAll(w, postData).satisfied <==>
      w.satisfied || (!w.incremental && PostHas(postData, w.key, w.value))
    decreases |postData|
  {
    if postData != [] {
      var w' := CompleteStep(w, postData[0].0, postData[0].1);
      CompleteAllSatisfied(w', postData[1..]);
      PostHasCons(postData, w.key, w.value);
    }
  }

  lemma PostHasCons(postData: seq<(string, string)>, key: string, value: string)
    requires postData != []
    ensures PostHas(postData, key, value) <==>
      (StrEq(postData[0].0, key) && postData[0].1 == value) || PostHas(postData[1..], key, value)
  {
    if PostHas(postData, key, value) {
      var i :| 0 <= i < |postData| && StrEq(postData[i].0, key) && postData[i].1 == value;
      if i > 0 {
        assert postData[1..][i - 1] == postData[i];
      }
    }
    if PostHas(postData[1..], key, value) {
      var i :| 0 <= i < |postData[1..]| && StrEq(postData[1..][i].0, key) && postData[1..][i].1 == value;
      assert postData[i + 1] == postData[1..][i];
    }
  }

  /**
   * post_stream_done. The library's MHD_request_get_values_cb is modelled as
   * offering the POST values in order to check_complete_value until it answers
   * NO. Then the first unsatisfied want makes the upload fail (NULL); otherwise
   * the answer is an empty 204 reply.
   */
  method PostStreamDone(wants: array?<Want>, postData: seq<(string, string)>) returns (act: UploadAction)
    modifies wants
    ensures wants != null ==>
      forall i :: 0 <= i < wants.Length ==> wants[i] == CompleteAll(old(wants[i]), postData)
    ensures act == UploadFail || act == UploadRespond(NoContent())
    ensures act == UploadFail <==>
      wants != null && exists i :: 0 <= i < wants.Length && !wants[i].satisfied
  {
    var k := 0;
    ghost var done: seq<(string, string)> := [];
    while k < |postData|
      invariant 0 <= k <= |postData|
      invariant done == postData[..k]
      invariant wants != null ==>
        forall i :: 0 <= i < wants.Length ==> wants[i] == CompleteAll(old(wants[i]), done)
    {
      var more := CheckCompleteValue(wants, postData[k].0, postData[k].1);
      if !more {
        break;
      }
      forall i | 0 <= i < wants.Length
        ensures CompleteAll(old(wants[i]), done + [postData[k]])
             == CompleteStep(CompleteAll(old(wants[i]), done), postData[k].0, postData[k].1)
      {
        CompleteAllSnoc(old(wants[i]), done, postData[k]);
      }
      assert postData[..k + 1] == done + [postData[k]];
      k := k + 1;
      done := postData[..k];
    }
    if wants != null {
      assert k == |postData|;
      assert done == postData;
      var i := 0;
      while i < wants.Length
        invariant 0 <= i <= wants.Length
        invariant forall j :: 0 <= j < i ==> wants[j].satisfied
      {
        if !wants[i].satisfied {
          return UploadFail;
        }
        i := i + 1;
      }
    }
    return UploadRespond(NoContent());
  }

  lemma {:induction false} CompleteAllSnoc(w: Want, done: seq<(string, string)>, nv: (string, string))
    ensures CompleteAll(w, done + [nv]) == CompleteStep(CompleteAll(w, done), nv.0, nv.1)
    decreases |done|
  {
    if done == [] {
      assert [] + [nv] == [nv];
    } else {
      assert (done + [nv])[1..] == done[1..] + [nv];
      CompleteAllSnoc(CompleteStep(w, done[0].0, done[0].1), done[1..], nv);
    }
  }

  /**
   * The outcome of post_stream_done in terms of the wants before the call: the
   * upload succeeds exactly when every want was satisfied by streaming already,
   * or is a complete want whose key and value are among the POST values.
   */
  lemma PostStreamDoneSucceedsIff(ws: seq<Want>, postData: seq<(string, string)>)
    ensures (forall i :: 0 <= i < |ws| ==> CompleteAll(ws[i], postData).satisfied) <==>
      (forall i :: 0 <= i < |ws| ==>
        ws[i].satisfied || (!ws[i].incremental && PostHas(postData, ws[i].key, ws[i].value)))
  {
    forall i | 0 <= i < |ws| {
      CompleteAllSatisfied(ws[i], postData);
    }
  }
}
