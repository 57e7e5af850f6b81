/**
 * The PHP string built-ins the keyword blocker relies on, as pure functions on
 * strings: `empty` (for string arguments), `trim` with its default character
 * list, `explode("\n", ...)`, ASCII case folding and `stripos`.
 */
module PhpStrings {
  import opened Wrappers

  /** PHP `empty($s)` for a string: only "" and "0" are falsy. */
  predicate IsEmpty(s: string) {
    s == "" || s == "0"
  }

  /** The characters PHP `trim` strips by default: " \t\n\r\0\x0B". */
  predicate IsTrimChar(c: char) {
    c == ' ' || c == '\t' || c == '\n' || c == '\r' || c == '\0' || c == '\U{000B}'
  }

  predicate AllTrimChars(s: string) {
    forall i :: 0 <= i < |s| ==> IsTrimChar(s[i])
  }

  /** Strips the leading trim characters. */
  function TrimLeft(s: string): string {
    if s != [] && IsTrimChar(s[0]) then TrimLeft(s[1..]) else s
  }

  /** Strips the trailing trim characters. */
  function TrimRight(s: string): string {
    if s != [] && IsTrimChar(s[|s| - 1]) then TrimRight(s[..|s| - 1]) else s
  }

  /** `TrimLeft` removes a leading run of trim characters `p`, all of it. */
  lemma {:induction false} TrimLeftSpec(s: string) returns (p: string)
    ensures s == p + TrimLeft(s) && AllTrimChars(p)
    ensures TrimLeft(s) == [] || !IsTrimChar(TrimLeft(s)[0])
  {
    if s != [] && IsTrimChar(s[0]) {
      var rest := TrimLeftSpec(s[1..]);
      p := [s[0]] + rest;
      assert s == [s[0]] + s[1..];
      assert forall i :: 1 <= i < |p| ==> p[i] == rest[i - 1];
    } else {
      p := [];
    }
  }

  /** `TrimRight` removes a trailing run of trim characters `q`, all of it. */
  lemma {:induction false} TrimRightSpec(s: string) returns (q: string)
    ensures s == TrimRight(s) + q && AllTrimChars(q)
    ensures TrimRight(s) == [] || !IsTrimChar(TrimRight(s)[|TrimRight(s)| - 1])
  {
    if s != [] && IsTrimChar(s[|s| - 1]) {
      var rest := TrimRightSpec(s[..|s| - 1]);
      q := rest + [s[|s| - 1]];
      assert s == s[..|s| - 1] + [s[|s| - 1]];
      assert forall i :: 0 <= i < |rest| ==> q[i] == rest[i];
    } else {
      q := [];
    }
  }

  /** PHP `trim($s)` with the default character list. */
  function Trim(s: string): string {
    TrimRight(TrimLeft(s))
  }

  /** A string neither starting nor ending with a trim character. */
  predicate IsTrimmed(t: string) {
    t == [] || (!IsTrimChar(t[0]) && !IsTrimChar(t[|t| - 1]))
  }

  /**
   * `trim` removes exactly a run of trim characters at each end: its result
   * is the middle of `s` between two such runs and is itself trimmed.
   */
  lemma TrimSpec(s: string) returns (p: string, q: string)
    ensures s == p + Trim(s) + q && AllTrimChars(p) && AllTrimChars(q)
    ensures IsTrimmed(Trim(s))
  {
    var l := TrimLeft(s);
    var t := TrimRight(l);
    assert Trim(s) == t;
    p := TrimLeftSpec(s);
    q := TrimRightSpec(l);
    calc {
      s;
      p + l;
      p + (t + q);
      p + t + q;
    }
    if t != [] {
      assert t[0] == l[0];
    }
  }

  /**
   * The decomposition of `TrimSpec` determines `trim`: whenever `s` is a
   * trimmed middle part surrounded by runs of trim characters, `trim`
   * returns that middle part.
   */
  lemma {:induction false} TrimUnique(p: string, t: string, q: string)
    requires AllTrimChars(p) && AllTrimChars(q) && IsTrimmed(t)
    ensures Trim(p + t + q) == t
  {
    if t == [] {
      assert p + t + q == p + q;
      assert AllTrimChars(p + q) by {
        forall i | 0 <= i < |p + q| ensures IsTrimChar((p + q)[i]) {
          if i >= |p| { assert (p + q)[i] == q[i - |p|]; }
        }
      }
      TrimLeftDrops(p + q, []);
      assert p + q + [] == p + q;
    } else {
      TrimLeftDrops(p, t + q);
      assert p + t + q == p + (t + q);
      assert (t + q)[0] == t[0];
      TrimRightDrops(t, q);
    }
  }

  lemma {:induction false} TrimLeftDrops(p: string, u: string)
    requires AllTrimChars(p) && (u == [] || !IsTrimChar(u[0]))
    ensures TrimLeft(p + u) == u
  {
    if p != [] {
      assert (p + u)[1..] == p[1..] + u;
      TrimLeftDrops(p[1..], u);
    }
  }

  lemma {:induction false} TrimRightDrops(t: string, q: string)
    requires AllTrimChars(q) && t != [] && !IsTrimChar(t[|t| - 1])
    ensures TrimRight(t + q) == t
  {
    if q != [] {
      assert (t + q)[..|t + q| - 1] == t + q[..|q| - 1];
      TrimRightDrops(t, q[..|q| - 1]);
    }
  }

  /** A string made only of trim characters trims to "". */
  lemma TrimAllTrimChars(s: string)
    requires AllTrimChars(s)
    ensures Trim(s) == ""
  {
    TrimUnique(s, [], []);
    assert s + [] + [] == s;
  }

  /** Trimming twice is trimming once. */
  lemma TrimIdempotent(s: string)
    ensures Trim(Trim(s)) == Trim(s)
  {
    var t := Trim(s);
    var _, _ := TrimSpec(s);
    TrimUnique([], t, []);
    assert [] + t + [] == t;
  }

  /**
   * PHP `explode("\n", $s)`: the pieces of `s` between newlines, in order.
   * There is always at least one piece; "" gives [""].
   */
  function Explode(s: string): (r: seq<string>)
    ensures |r| >= 1
  {
    if s == [] then [""] else Prepend(s[0], Explode(s[1..]))
  }

  /** Puts one more character in front of the pieces: a newline starts a new piece. */
  function Prepend(c: char, pieces: seq<string>): (r: seq<string>)
    requires |pieces| >= 1
    ensures |r| >= 1
  {
    if c == '\n' then [""] + pieces else [[c] + pieces[0]] + pieces[1..]
  }

  /** No piece of `Explode(s)` holds a newline. */
  lemma {:induction false} ExplodeNoNewlines(s: string)
    ensures forall k :: 0 <= k < |Explode(s)| ==> '\n' !in Explode(s)[k]
  {
    if s != [] {
      ExplodeNoNewlines(s[1..]);
    }
  }

  /** PHP `implode("\n", $pieces)`, the inverse of `Explode`. */
  function Implode(pieces: seq<string>): string {
    if |pieces| == 0 then ""
    else if |pieces| == 1 then pieces[0]
    else pieces[0] + "\n" + Implode(pieces[1..])
  }

  /** Joining the pieces back with newlines gives the original string. */
  lemma {:induction false} ImplodeExplode(s: string)
    ensures Implode(Explode(s)) == s
  {
    if s != [] {
      var rest := Explode(s[1..]);
      ImplodeExplode(s[1..]);
      if s[0] == '\n' {
        assert ([""] + rest)[1..] == rest;
      } else {
        var r := [[s[0]] + rest[0]] + rest[1..];
        assert r[1..] == rest[1..];
        if |rest| == 1 {
          assert s == [s[0]] + s[1..];
        } else {
          assert Implode(rest) == rest[0] + "\n" + Implode(rest[1..]);
          assert s == [s[0]] + s[1..];
        }
      }
    }
  }

  /** Splitting a newline-free piece list joined by newlines gives the list back. */
  lemma {:induction false} ExplodeImplode(pieces: seq<string>)
    requires |pieces| >= 1
    requires forall k :: 0 <= k < |pieces| ==> '\n' !in pieces[k]
    ensures Explode(Implode(pieces)) == pieces
  {
    if |pieces| == 1 {
      ExplodeNoNewline(pieces[0]);
    } else {
      ExplodeImplode(pieces[1..]);
      ExplodeConcat(pieces[0], Implode(pieces[1..]));
      ExplodeNoNewline(pieces[0]);
      assert pieces == [pieces[0]] + pieces[1..];
    }
  }

  lemma {:induction false} ExplodeNoNewline(s: string)
    requires '\n' !in s
    ensures Explode(s) == [s]
  {
    if s != [] {
      assert s[0] in s;
      assert forall c :: c in s[1..] ==> c in s;
      ExplodeNoNewline(s[1..]);
      assert s == [s[0]] + s[1..];
    }
  }

  /** One step of `Explode`: a leading newline starts a new piece, any other character joins the first one. */
  lemma ExplodeCons(c: char, t: string)
    ensures Explode([c] + t) == Prepend(c, Explode(t))
  {
    assert ([c] + t)[0] == c && ([c] + t)[1..] == t;
  }

  /** Explode distributes over a newline: the pieces of `a` followed by those of `b`. */
  lemma {:induction false} ExplodeConcat(a: string, b: string)
    ensures Explode(a + "\n" + b) == Explode(a) + Explode(b)
  {
    if a == [] {
      assert a + "\n" + b == ['\n'] + b;
      ExplodeCons('\n', b);
    } else {
      ExplodeConcat(a[1..], b);
      assert a == [a[0]] + a[1..];
      ExplodeConcatStep(a[0], a[1..], b);
    }
  }

  /** The inductive step of `ExplodeConcat`: one more character in front. */
  lemma ExplodeConcatStep(c: char, t: string, b: string)
    requires Explode(t + "\n" + b) == Explode(t) + Explode(b)
    ensures Explode([c] + t + "\n" + b) == Explode([c] + t) + Explode(b)
  {
    var u := t + "\n" + b;
    assert [c] + t + "\n" + b == [c] + u;
    ExplodeCons(c, u);
    ExplodeCons(c, t);
    PrependConcat(c, Explode(t), Explode(b));
  }

  lemma PrependConcat(c: char, front: seq<string>, back: seq<string>)
    requires |front| >= 1
    ensures Prepend(c, front + back) == Prepend(c, front) + back
  {
    if c != '\n' {
      assert (front + back)[0] == front[0];
      assert (front + back)[1..] == front[1..] + back;
    }
  }

  /** Every piece of a blank string is blank. */
  lemma {:induction false} ExplodeBlank(s: string)
    requires AllTrimChars(s)
    ensures forall k :: 0 <= k < |Explode(s)| ==> AllTrimChars(Explode(s)[k])
  {
    if s != [] {
      ExplodeBlank(s[1..]);
      var rest := Explode(s[1..]);
      if s[0] != '\n' {
        var first := [s[0]] + rest[0];
        assert AllTrimChars(first) by {
          forall i | 0 <= i < |first| ensures IsTrimChar(first[i]) {
            if i > 0 { assert first[i] == rest[0][i - 1]; }
          }
        }
      }
    }
  }

  /** ASCII lower-casing of one character, as PHP 8.2's `strtolower` does. */
  function AsciiLower(c: char): (r: char)
    ensures 'A' <= c <= 'Z' ==> 'a' <= r <= 'z' && r as int == c as int + 32
    ensures !('A' <= c <= 'Z') ==> r == c
  {
    if 'A' <= c <= 'Z' then (c as int + 32) as char else c
  }

  /** The needle occurs at position `i` of the haystack, ignoring ASCII case. */
  predicate MatchesAt(haystack: string, needle: string, i: nat) {
    i + |needle| <= |haystack| &&
    forall k :: 0 <= k < |needle| ==> AsciiLower(haystack[i + k]) == AsciiLower(needle[k])
  }

  /** The needle occurs somewhere in the haystack, ignoring ASCII case. */
  predicate ContainsCI(haystack: string, needle: string) {
    exists i: nat :: i <= |haystack| && MatchesAt(haystack, needle, i)
  }

  /** The search at the heart of `stripos`: the first match at or after `from`. */
  function StriposFrom(haystack: string, needle: string, from: nat): (r: Option<nat>)
    decreases |haystack| - from
    ensures r.Some? ==> from <= r.value && MatchesAt(haystack, needle, r.value)
    ensures r.Some? ==> forall i: nat :: from <= i < r.value ==> !MatchesAt(haystack, needle, i)
    ensures r.None? ==> forall i: nat :: from <= i ==> !MatchesAt(haystack, needle, i)
  {
    if from + |needle| > |haystack| then None
    else if MatchesAt(haystack, needle, from) then Some(from)
    else StriposFrom(haystack, needle, from + 1)
  }

  /**
   * PHP `stripos($haystack, $needle)`: the first position where the needle
   * occurs ignoring ASCII case, or None where PHP returns false.
   */
  function Stripos(haystack: string, needle: string): (r: Option<nat>)
    ensures r.Some? <==> ContainsCI(haystack, needle)
    ensures r.Some? ==> MatchesAt(haystack, needle, r.value)
    ensures r.Some? ==> forall i: nat :: i < r.value ==> !MatchesAt(haystack, needle, i)
  {
    StriposFrom(haystack, needle, 0)
  }
}
