/** The line framing inside `openai_text_generate`: which of the streamed
    response's lines hand a payload to the JSON parser, and where the stream
    is cut off. JSON decoding itself is a parameter: a partial function that
    gives `None` where the parser raises a decoding error.
    Lemmas marked `{:induction false}` that do not recurse carry it to keep
    Dafny's automatic induction out of their proofs, which only call other lemmas. */
module StreamFraming {
  import opened PyStr

  datatype Option<T> = None | Some(value: T)

  /** A line is a data line when it starts with this field name. */
  const DataField := "data:"
  /** Characters removed from the front of a data line: `len('data: ')`. */
  const DataPrefixLength := 6
  /** The end-of-stream marker, looked for anywhere in a line. */
  const DoneMarker := "data: [DONE]"

  /** What the loop does with one decoded line. */
  datatype LineAction = Parse(payload: string) | Skip | Stop

  function Classify(line: string): (a: LineAction)
    ensures a.Parse? <==> StartsWith(line, DataField) && |line| > DataPrefixLength
    ensures a.Parse? ==> a.payload != "" && line == line[..DataPrefixLength] + a.payload
    ensures a.Stop? <==> !StartsWith(line, DataField) && Contains(line, DoneMarker)
  {
    if StartsWith(line, DataField) then
      var jsonStr := Drop(line, DataPrefixLength);
      if jsonStr != "" then Parse(jsonStr) else Skip
    else if Contains(line, DoneMarker) then Stop
    else Skip
  }

  predicate IsStopLine(line: string) {
    Classify(line).Stop?
  }

  /** The payloads handed to the parser, in order, up to the first stop line:
      at most one per line. */
  function Payloads(lines: seq<string>): (r: seq<string>)
    ensures |r| <= |lines|
  {
    if lines == [] then []
    else match Classify(lines[0])
      case Stop => []
      case Skip => Payloads(lines[1..])
      case Parse(p) => [p] + Payloads(lines[1..])
  }

  /** The objects the generator yields for these payloads, in order: failed
      decodings are dropped. */
  function Decoded<J>(payloads: seq<string>, decode: string -> Option<J>): (r: seq<J>)
    ensures |r| <= |payloads|
  {
    if payloads == [] then []
    else
      var init := payloads[..|payloads| - 1];
      var last := payloads[|payloads| - 1];
      Decoded(init, decode) + match decode(last) case Some(x) => [x] case None => []
  }

  /** An object is yielded exactly when the parser accepts some payload with it:
      every successful decoding is kept and nothing else is yielded. */
  lemma {:induction false} DecodedMembers<J>(payloads: seq<string>, decode: string -> Option<J>, x: J)
    ensures x in Decoded(payloads, decode) <==> exists p :: p in payloads && decode(p) == Some(x)
  {
    if payloads != [] {
      var init, last := payloads[..|payloads| - 1], payloads[|payloads| - 1];
      assert payloads == init + [last];
      DecodedMembers(init, decode, x);
      if exists p :: p in payloads && decode(p) == Some(x) {
        var p :| p in payloads && decode(p) == Some(x);
        if p != last {
          assert p in init;
        }
      }
    }
  }

  /** The index of the first stop line, or the number of lines when there is none. */
  function FirstStop(lines: seq<string>): (k: nat)
    ensures k <= |lines|
    ensures forall i :: 0 <= i < k ==> !IsStopLine(lines[i])
    ensures k < |lines| ==> IsStopLine(lines[k])
  {
    if lines == [] || IsStopLine(lines[0]) then 0 else 1 + FirstStop(lines[1..])
  }

  /** The loop of `openai_text_generate` over the response's decoded lines:
      it returns the payloads handed to the parser and the objects yielded.
      The source's `break` is a `return` here, as nothing follows the loop. */
  method FrameLines<J>(lines: seq<string>, decode: string -> Option<J>)
    returns (payloads: seq<string>, yielded: seq<J>)
    ensures payloads == Payloads(lines)
    ensures yielded == Decoded(payloads, decode)
  {
    payloads, yielded := [], [];
    var i := 0;
    while i < |lines|
      invariant i <= |lines|
      invariant FirstStop(lines[..i]) == i
      invariant payloads == Payloads(lines[..i])
      invariant yielded == Decoded(payloads, decode)
    {
      var line := lines[i];
      assert lines[..i + 1] == lines[..i] + [line];
      if StartsWith(line, DataField) {
        var jsonStr := Drop(line, DataPrefixLength);
        if jsonStr != "" {
          PayloadsStep(lines[..i], line);
          DecodedStep(payloads, jsonStr, decode);
          payloads := payloads + [jsonStr];
          match decode(jsonStr)
          case Some(obj) => yielded := yielded + [obj];
          case None =>
        } else {
          PayloadsStep(lines[..i], line);
        }
      } else if Contains(line, DoneMarker) {
        PayloadsAppend(lines[..i], lines[i..]);
        assert lines[..i] + lines[i..] == lines;
        return;
      } else {
        PayloadsStep(lines[..i], line);
      }
      i := i + 1;
    }
    assert lines[..i] == lines;
  }

  /** One more line after a stretch without a stop line. */
  lemma PayloadsStep(prefix: seq<string>, line: string)
    requires FirstStop(prefix) == |prefix| && !IsStopLine(line)
    ensures FirstStop(prefix + [line]) == |prefix| + 1
    ensures Payloads(prefix + [line]) ==
      Payloads(prefix) + match Classify(line) case Parse(p) => [p] case _ => []
  {
    PayloadsAppend(prefix, [line]);
    FirstStopAppend(prefix, [line]);
  }

  lemma {:induction false} FirstStopAppend(a: seq<string>, b: seq<string>)
    requires FirstStop(a) == |a|
    ensures FirstStop(a + b) == |a| + FirstStop(b)
  {
    if a == [] {
      assert a + b == b;
    } else {
      assert (a + b)[1..] == a[1..] + b;
      FirstStopAppend(a[1..], b);
    }
  }

  lemma DecodedStep<J>(payloads: seq<string>, p: string, decode: string -> Option<J>)
    ensures Decoded(payloads + [p], decode) ==
      Decoded(payloads, decode) + match decode(p) case Some(x) => [x] case None => []
  {
    assert (payloads + [p])[..|payloads|] == payloads;
  }

  /** Framing is incremental: the lines after a chunk matter only when that
      chunk holds no stop line. */
  lemma {:induction false} PayloadsAppend(a: seq<string>, b: seq<string>)
    ensures Payloads(a + b) ==
      if FirstStop(a) < |a| then Payloads(a) else Payloads(a) + Payloads(b)
  {
    if a == [] {
      assert a + b == b;
    } else {
      assert (a + b)[1..] == a[1..] + b;
      PayloadsAppend(a[1..], b);
    }
  }

  /** Nothing after the first stop line reaches the parser. */
  lemma {:induction false} PayloadsStopAtFirstStop(lines: seq<string>)
    ensures Payloads(lines) == Payloads(lines[..FirstStop(lines)])
    ensures |Payloads(lines)| <= FirstStop(lines)
  {
    var k := FirstStop(lines);
    PayloadsAppend(lines[..k], lines[k..]);
    assert lines[..k] + lines[k..] == lines;
    if k < |lines| {
      assert Payloads(lines[k..]) == [];
    }
  }

  /** Decoding keeps the order of the payloads: the objects of a stretch of
      payloads come before those of the next stretch. */
  lemma {:induction false} DecodedAppend<J>(a: seq<string>, b: seq<string>, decode: string -> Option<J>)
    ensures Decoded(a + b, decode) == Decoded(a, decode) + Decoded(b, decode)
  {
    if b == [] {
      assert a + b == a;
    } else {
      var init := b[..|b| - 1];
      assert (a + b)[..|a + b| - 1] == a + init;
      DecodedAppend(a, init, decode);
    }
  }

  /** One payload yields its decoding when the parser accepts it, and nothing otherwise. */
  lemma DecodedOne<J>(p: string, decode: string -> Option<J>)
    ensures Decoded([p], decode) == if decode(p).Some? then [decode(p).value] else []
  {
    assert [p][..0] == [];
  }

  /** A string reaches the parser exactly when some line before the first stop
      line is a data line carrying it as its non-empty payload. */
  lemma {:induction false} PayloadOrigin(lines: seq<string>, p: string)
    ensures p in Payloads(lines) <==>
      exists i :: 0 <= i < FirstStop(lines) && Classify(lines[i]) == Parse(p)
  {
    if lines != [] && !IsStopLine(lines[0]) {
      PayloadOrigin(lines[1..], p);
      if p in Payloads(lines) && Classify(lines[0]) != Parse(p) {
        var i :| 0 <= i < FirstStop(lines[1..]) && Classify(lines[1..][i]) == Parse(p);
        assert Classify(lines[i + 1]) == Parse(p);
      }
      if exists i :: 0 <= i < FirstStop(lines) && Classify(lines[i]) == Parse(p) {
        var i :| 0 <= i < FirstStop(lines) && Classify(lines[i]) == Parse(p);
        if i > 0 {
          assert Classify(lines[1..][i - 1]) == Parse(p);
        }
      }
    }
  }

  /** A line that starts with the end marker is a data line: its payload goes to
      the parser (which rejects it) and the stream goes on. */
  lemma DoneDataLineDoesNotStop(rest: string)
    ensures Classify(DoneMarker + rest) == Parse("[DONE]" + rest)
  {
    var line := DoneMarker + rest;
    assert line[..|DataField|] == DataField;
    assert line[DataPrefixLength..] == "[DONE]" + rest;
  }

  /** Whatever follows `data:`, its first character is dropped: the payload of
      `data:{"a":1}` is `"a":1}`, not the whole object. */
  lemma SixthCharacterDropped(c: char, v: string)
    requires v != ""
    ensures Classify(DataField + [c] + v) == Parse(v)
  {
    var line := DataField + [c] + v;
    assert line[..|DataField|] == DataField;
    assert line[DataPrefixLength..] == v;
  }

  /** A data line as servers usually send it, `data: ` and a value, hands over
      exactly that value, and an empty one is skipped without stopping. */
  lemma SpacedDataLineCarriesValue(v: string)
    ensures Classify(DataField + " " + v) == if v == "" then Skip else Parse(v)
  {
    var line := DataField + " " + v;
    assert line[..|DataField|] == DataField;
    assert line[DataPrefixLength..] == v;
  }
}
