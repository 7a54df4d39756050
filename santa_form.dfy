/**
 * The participant form: the textarea's text is split into lines, each line
 * trimmed, blank lines dropped, and the list is rejected when it has fewer
 * than two names or two names that agree ignoring case.
 */
module SantaForm {
  import opened Wrappers
  import opened Sequences
  import opened JsString

  const TooFewParticipants: string := "Please enter at least 2 participants!"
  const DuplicateNames: string := "Duplicate names found! Each participant must have a unique name."

  /** `lines.map((name) => name.trim())` */
  function TrimAll(lines: seq<string>): (r: seq<string>)
    ensures |r| == |lines| && forall k :: 0 <= k < |lines| ==> r[k] == Trim(lines[k])
  {
    seq(|lines|, k requires 0 <= k < |lines| => Trim(lines[k]))
  }

  /** `xs.filter((name) => name.length > 0)` */
  function DropEmpty(xs: seq<string>): (r: seq<string>)
    ensures |r| <= |xs|
    ensures "" !in r
    ensures forall x :: x != "" ==> multiset(r)[x] == multiset(xs)[x]
    ensures forall x :: x in r <==> x in xs && x != ""
    decreases |xs|
  {
    if xs == [] then []
    else
      assert xs == [xs[0]] + xs[1..];
      (if xs[0] == "" then [] else [xs[0]]) + DropEmpty(xs[1..])
  }

  /** The filter keeps the order: what survives of `a` comes before what survives of `b`. */
  lemma {:induction false} DropEmptyAppend(a: seq<string>, b: seq<string>)
    ensures DropEmpty(a + b) == DropEmpty(a) + DropEmpty(b)
    decreases |a|
  {
    if a != [] {
      DropEmptyAppend(a[1..], b);
      assert (a + b)[0] == a[0] && (a + b)[1..] == a[1..] + b;
      var head := if a[0] == "" then [] else [a[0]];
      assert DropEmpty(a + b) == head + (DropEmpty(a[1..]) + DropEmpty(b));
    } else {
      assert a + b == b;
    }
  }

  /** The participant list typed into the textarea, one name per line. */
  function ParseParticipants(names: string): seq<string>
  {
    DropEmpty(TrimAll(Split(names, '\n')))
  }

  /** `participants.map((n) => n.toLowerCase())` */
  function LowerAll(ps: seq<string>): (r: seq<string>)
    ensures |r| == |ps| && forall k :: 0 <= k < |ps| ==> r[k] == ToLower(ps[k])
  {
    seq(|ps|, k requires 0 <= k < |ps| => ToLower(ps[k]))
  }

  /** No two names agree once lower-cased. */
  ghost predicate DistinctIgnoringCase(ps: seq<string>)
  {
    forall i, j :: 0 <= i < j < |ps| ==> ToLower(ps[i]) != ToLower(ps[j])
  }

  /**
   * The validation of `handleGenerate`: the parsed list, or the message the
   * form shows. The count is checked before the duplicates.
   */
  function Validate(names: string): Result<seq<string>>
  {
    var participants := ParseParticipants(names);
    if |participants| < 2 then Err(TooFewParticipants)
    else if |Elements(LowerAll(participants))| != |participants| then Err(DuplicateNames)
    else Ok(participants)
  }

  /** What survives the trimming and the filter is non-empty and trimmed. */
  lemma KeptNamesAreTrimmed(lines: seq<string>)
    ensures forall k :: 0 <= k < |DropEmpty(TrimAll(lines))| ==>
              DropEmpty(TrimAll(lines))[k] != "" && IsTrimmed(DropEmpty(TrimAll(lines))[k])
  {
    var ps := DropEmpty(TrimAll(lines));
    forall k | 0 <= k < |ps| ensures ps[k] != "" && IsTrimmed(ps[k]) {
      assert ps[k] in TrimAll(lines);
      var m :| 0 <= m < |lines| && TrimAll(lines)[m] == ps[k];
      TrimSpec(lines[m]);
    }
  }

  /** A name survives the trimming and the filter exactly when some line trims to it. */
  lemma KeptNamesComeFromLines(lines: seq<string>)
    ensures forall p :: p in DropEmpty(TrimAll(lines)) <==>
              p != "" && exists line :: line in lines && Trim(line) == p
  {
    forall p ensures p in TrimAll(lines) <==> exists line :: line in lines && Trim(line) == p {
      if p in TrimAll(lines) {
        var m :| 0 <= m < |lines| && TrimAll(lines)[m] == p;
        assert lines[m] in lines;
      }
      if exists line :: line in lines && Trim(line) == p {
        var line :| line in lines && Trim(line) == p;
        var m :| 0 <= m < |lines| && lines[m] == line;
        assert TrimAll(lines)[m] == p;
      }
    }
  }

  /**
   * Every parsed name is non-empty and trimmed, and it is parsed exactly when
   * some line of the input trims to it.
   */
  lemma ParseParticipantsSpec(names: string)
    ensures forall k :: 0 <= k < |ParseParticipants(names)| ==>
              ParseParticipants(names)[k] != "" && IsTrimmed(ParseParticipants(names)[k])
    ensures forall p :: p in ParseParticipants(names) <==>
              p != "" && exists line :: line in Split(names, '\n') && Trim(line) == p
  {
    KeptNamesAreTrimmed(Split(names, '\n'));
    KeptNamesComeFromLines(Split(names, '\n'));
  }

  /** A name is parsed as many times as there are lines that trim to it. */
  lemma ParseParticipantsCounts(names: string)
    ensures "" !in ParseParticipants(names)
    ensures forall p :: p != "" ==>
              multiset(ParseParticipants(names))[p] == multiset(TrimAll(Split(names, '\n')))[p]
  {
  }

  /** A single line gives its trimmed name, or nothing when it is blank. */
  lemma ParseOneLine(line: string)
    requires '\n' !in line
    ensures ParseParticipants(line) == if Trim(line) == "" then [] else [Trim(line)]
  {
    SplitPiece(line, [], '\n');
    assert TrimAll([line]) == [Trim(line)];
  }

  /** The names of earlier lines come first, in the order the lines are typed. */
  lemma ParseLines(before: string, after: string)
    ensures ParseParticipants(before + "\n" + after) == ParseParticipants(before) + ParseParticipants(after)
  {
    var a, b := Split(before, '\n'), Split(after, '\n');
    SplitAppend(before, after, '\n');
    assert TrimAll(a + b) == TrimAll(a) + TrimAll(b);
    DropEmptyAppend(TrimAll(a), TrimAll(b));
  }

  lemma {:induction false} DropEmptyKeepsNonEmpty(xs: seq<string>)
    requires forall k :: 0 <= k < |xs| ==> xs[k] != ""
    ensures DropEmpty(xs) == xs
    decreases |xs|
  {
    if xs != [] {
      DropEmptyKeepsNonEmpty(xs[1..]);
    }
  }

  /** Names typed one per line, already trimmed and non-blank, are parsed back exactly, in order. */
  lemma ParseOnePerLine(ns: seq<string>)
    requires |ns| >= 1
    requires forall k :: 0 <= k < |ns| ==> ns[k] != "" && IsTrimmed(ns[k]) && '\n' !in ns[k]
    ensures ParseParticipants(Join(ns, '\n')) == ns
  {
    SplitJoin(ns, '\n');
    forall k | 0 <= k < |ns| ensures Trim(ns[k]) == ns[k] {
      TrimmedIsFixed(ns[k]);
    }
    assert TrimAll(ns) == ns;
    DropEmptyKeepsNonEmpty(ns);
  }

  /**
   * What `handleGenerate` accepts: exactly the lists of at least two names
   * that are pairwise distinct ignoring case, and hence pairwise distinct,
   * as the matcher needs. Each rejection carries its message.
   */
  lemma ValidateSpec(names: string)
    ensures var ps := ParseParticipants(names);
      && (|ps| < 2 ==> Validate(names) == Err(TooFewParticipants))
      && (|ps| >= 2 && !DistinctIgnoringCase(ps) ==> Validate(names) == Err(DuplicateNames))
      && (|ps| >= 2 && DistinctIgnoringCase(ps) ==> Validate(names) == Ok(ps))
    ensures Validate(names).Ok? ==> |Validate(names).value| >= 2 && Distinct(Validate(names).value)
  {
    var ps := ParseParticipants(names);
    var lower := LowerAll(ps);
    ElementsSize(lower);
    assert Distinct(lower) <==> DistinctIgnoringCase(ps);
    if DistinctIgnoringCase(ps) {
      forall i, j | 0 <= i < j < |ps| ensures ps[i] != ps[j] {
        assert ToLower(ps[i]) != ToLower(ps[j]);
      }
    }
  }

  /** The form component's state: the textarea's text and the error it shows. */
  class SecretSantaForm {
    var names: string
    var error: string

    constructor ()
      ensures names == "" && error == ""
    {
      names, error := "", "";
    }

    /** The textarea's `onChange`: store the text and clear the error. */
    method Edit(value: string)
      modifies this
      ensures names == value && error == ""
    {
      names := value;
      error := "";
    }

    /**
     * `handleGenerate`: clears the error, then either shows the validation
     * message or calls `onGenerate` with the parsed list, returned here.
     */
    method HandleGenerate() returns (generated: Option<seq<string>>)
      modifies this`error
      ensures Validate(names).Ok? ==> generated == Some(Validate(names).value) && error == ""
      ensures Validate(names).Err? ==> generated == None && error == Validate(names).error
      ensures generated.Some? ==> |generated.value| >= 2 && Distinct(generated.value)
    {
      error := "";
      var outcome := Validate(names);
      ValidateSpec(names);
      match outcome {
        case Ok(participants) =>
          generated := Some(participants);
        case Err(message) =>
          error := message;
          generated := None;
      }
    }
  }
}
