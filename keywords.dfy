/**
 * Normalisation of the `disallowed_keys` option into the keyword list:
 * the pipeline `array_filter(array_map('trim', explode("\n", $raw)))`.
 */
module Keywords {
  import opened PhpStrings

  /** `array_map('trim', $pieces)`. */
  function TrimAll(pieces: seq<string>): (r: seq<string>)
    ensures |r| == |pieces|
    ensures forall k :: 0 <= k < |r| ==> r[k] == Trim(pieces[k])
  {
    if pieces == [] then [] else [Trim(pieces[0])] + TrimAll(pieces[1..])
  }

  /**
   * `array_filter($pieces)` with no callback: drops every falsy string, that
   * is "" and "0", and keeps the others in their order.
   */
  function DropEmpty(pieces: seq<string>): (r: seq<string>)
    ensures |r| <= |pieces|
    ensures forall k :: 0 <= k < |r| ==> !IsEmpty(r[k])
  {
    if pieces == [] then []
    else if IsEmpty(pieces[0]) then DropEmpty(pieces[1..])
    else [pieces[0]] + DropEmpty(pieces[1..])
  }

  /** The keyword list built from the raw option value. */
  function Normalize(raw: string): (r: seq<string>)
    ensures |r| <= |Explode(raw)|
    ensures forall k :: 0 <= k < |r| ==> !IsEmpty(r[k])
  {
    DropEmpty(TrimAll(Explode(raw)))
  }

  /** A keyword as `Normalize` produces it. */
  predicate WellFormedKeyword(k: string) {
    k != "" && k != "0" && '\n' !in k && IsTrimmed(k)
  }

  lemma {:induction false} DropEmptyMembers(pieces: seq<string>)
    ensures forall k :: k in DropEmpty(pieces) <==> k in pieces && !IsEmpty(k)
  {
    if pieces != [] {
      DropEmptyMembers(pieces[1..]);
      assert pieces == [pieces[0]] + pieces[1..];
    }
  }

  lemma {:induction false} DropEmptyConcat(a: seq<string>, b: seq<string>)
    ensures DropEmpty(a + b) == DropEmpty(a) + DropEmpty(b)
  {
    if a == [] {
      assert a + b == b;
    } else {
      assert (a + b)[0] == a[0];
      assert (a + b)[1..] == a[1..] + b;
      DropEmptyConcat(a[1..], b);
    }
  }

  lemma {:induction false} TrimAllConcat(a: seq<string>, b: seq<string>)
    ensures TrimAll(a + b) == TrimAll(a) + TrimAll(b)
  {
    if a == [] {
      assert a + b == b;
    } else {
      assert (a + b)[0] == a[0];
      assert (a + b)[1..] == a[1..] + b;
      TrimAllConcat(a[1..], b);
    }
  }

  /**
   * A string is a keyword exactly when it is the trimmed form of some
   * newline-separated piece of the raw value and is not "" or "0".
   */
  lemma NormalizeMembers(raw: string, k: string)
    ensures k in Normalize(raw) <==>
            !IsEmpty(k) && exists p :: p in Explode(raw) && Trim(p) == k
  {
    var pieces := Explode(raw);
    DropEmptyMembers(TrimAll(pieces));
    if k in TrimAll(pieces) {
      var i :| 0 <= i < |pieces| && TrimAll(pieces)[i] == k;
      assert pieces[i] in pieces;
    }
    if p :| p in pieces && Trim(p) == k {
      var i :| 0 <= i < |pieces| && pieces[i] == p;
      assert TrimAll(pieces)[i] == k;
    }
  }

  /**
   * Every keyword is non-empty (so `stripos` never receives an empty
   * needle), is not "0", holds no newline and has no surrounding whitespace.
   */
  lemma NormalizeWellFormed(raw: string)
    ensures forall k :: k in Normalize(raw) ==> WellFormedKeyword(k)
  {
    forall k | k in Normalize(raw) ensures WellFormedKeyword(k) {
      NormalizeMembers(raw, k);
      var p :| p in Explode(raw) && Trim(p) == k;
      ExplodeNoNewlines(raw);
      var a, b := TrimSpec(p);
      assert forall c :: c in k ==> c in p;
    }
  }

  /**
   * Source order is kept: the keywords of two newline-joined option values
   * are those of the first followed by those of the second.
   */
  lemma NormalizeConcat(a: string, b: string)
    ensures Normalize(a + "\n" + b) == Normalize(a) + Normalize(b)
  {
    ExplodeConcat(a, b);
    TrimAllConcat(Explode(a), Explode(b));
    DropEmptyConcat(TrimAll(Explode(a)), TrimAll(Explode(b)));
  }

  /** A value made only of whitespace and newlines yields no keyword. */
  lemma NormalizeBlank(raw: string)
    requires AllTrimChars(raw)
    ensures Normalize(raw) == []
  {
    var pieces := Explode(raw);
    ExplodeBlank(raw);
    forall k | 0 <= k < |pieces| ensures TrimAll(pieces)[k] == "" {
      TrimAllTrimChars(pieces[k]);
    }
    AllEmptyDropped(TrimAll(pieces));
  }

  lemma {:induction false} AllEmptyDropped(pieces: seq<string>)
    requires forall k :: 0 <= k < |pieces| ==> pieces[k] == ""
    ensures DropEmpty(pieces) == []
  {
    if pieces != [] {
      AllEmptyDropped(pieces[1..]);
    }
  }

  /**
   * For an option value written as lines joined by newlines, the keywords
   * are those lines trimmed, in order, without the empty ones.
   */
  lemma NormalizeLines(lines: seq<string>)
    requires |lines| >= 1
    requires forall k :: 0 <= k < |lines| ==> '\n' !in lines[k]
    ensures Normalize(Implode(lines)) == DropEmpty(TrimAll(lines))
  {
    ExplodeImplode(lines);
  }

  lemma ExampleLinesFiltered()
    ensures DropEmpty(TrimAll(["  foo ", "", "bar", "  ", ""])) == ["foo", "bar"]
  {
    ExampleTrims();
    assert TrimAll(["  foo ", "", "bar", "  ", ""]) == ["foo", "", "bar", "", ""];
  }

  lemma ExampleTrims()
    ensures Trim("  foo ") == "foo" && Trim("bar") == "bar" && Trim("  ") == "" && Trim("") == ""
  {
    assert TrimLeft("  foo ") == "foo " && TrimRight("foo ") == "foo";
    assert TrimLeft("bar") == "bar" && TrimRight("bar") == "bar";
    assert TrimLeft("  ") == "" && TrimRight("") == "";
  }

  /** The worked example: "  foo \n\nbar\n  \n" gives ["foo", "bar"]. */
  lemma NormalizeExample()
    ensures Normalize("  foo \n\nbar\n  \n") == ["foo", "bar"]
  {
    var lines := ["  foo ", "", "bar", "  ", ""];
    assert Implode(lines) == "  foo \n\nbar\n  \n";
    NormalizeLines(lines);
    ExampleLinesFiltered();
  }
}
