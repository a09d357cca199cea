/**
 * `renderMessage`: a welcome template in which every `(@)` marks where the
 * user is mentioned. A template without the marker is sent as plain text;
 * otherwise it is split on the marker, a mention of the user is put between
 * consecutive parts, and empty text parts are dropped.
 */
module Render {

  /** One piece of a rendered message: literal text, or a mention `h.at(userId, { name })`. */
  datatype Segment = Text(text: string) | At(userId: string, name: string)

  /** What `renderMessage` returns: the template string itself, or an array of segments. */
  datatype Rendered = Plain(text: string) | Elements(segments: seq<Segment>)

  const Marker: string := "(@)"

  predicate MarkerAt(s: string, i: int) {
    0 <= i && i + 3 <= |s| && s[i..i + 3] == Marker
  }

  /** `s.includes('(@)')`. */
  predicate Contains(s: string) {
    exists i :: 0 <= i < |s| && MarkerAt(s, i)
  }

  /**
   * `s.split('(@)')`: scanning left to right, each occurrence of the marker ends
   * one part and starts the next. The first part is a prefix of `s`.
   */
  function Split(s: string): (parts: seq<string>)
    ensures |parts| >= 1 && parts[0] <= s
    decreases |s|
  {
    if |s| < 3 then [s]
    else if s[..3] == Marker then [""] + Split(s[3..])
    else
      var rest := Split(s[1..]);
      [[s[0]] + rest[0]] + rest[1..]
  }

  /** The `flatMap` step: every part but the last is followed by a mention. */
  function Interleave(parts: seq<string>, userId: string, name: string): (segs: seq<Segment>)
    requires |parts| >= 1
    ensures |segs| == 2 * |parts| - 1
  {
    if |parts| == 1 then [Text(parts[0])]
    else [Text(parts[0]), At(userId, name)] + Interleave(parts[1..], userId, name)
  }

  /** The `filter(Boolean)` step: empty strings are dropped, mentions are kept. */
  function DropEmpty(segs: seq<Segment>): (r: seq<Segment>)
    ensures forall i :: 0 <= i < |r| ==> r[i] != Text("")
    ensures forall s :: s in r ==> s in segs
  {
    if segs == [] then []
    else (if segs[0] == Text("") then [] else [segs[0]]) + DropEmpty(segs[1..])
  }

  /** `renderMessage(template, userId, username)`. */
  function RenderMessage(template: string, userId: string, name: string): Rendered {
    if !Contains(template) then Plain(template)
    else Elements(DropEmpty(Interleave(Split(template), userId, name)))
  }

  /** The text of a segment list with every mention written back as `(@)`. */
  function Unrender(segs: seq<Segment>): string {
    if segs == [] then ""
    else
      (match segs[0] case Text(t) => t case At(_, _) => Marker) + Unrender(segs[1..])
  }

  /** The template a rendered message stands for. */
  function Written(r: Rendered): string {
    match r
    case Plain(t) => t
    case Elements(segs) => Unrender(segs)
  }

  /** `parts.join('(@)')`, the inverse of `Split`. */
  function Join(parts: seq<string>): string
    requires |parts| >= 1
  {
    if |parts| == 1 then parts[0] else parts[0] + Marker + Join(parts[1..])
  }

  /** The number of occurrences of the marker, counted left to right without overlap. */
  function MarkerCount(s: string): nat
    decreases |s|
  {
    if |s| < 3 then 0
    else if s[..3] == Marker then 1 + MarkerCount(s[3..])
    else MarkerCount(s[1..])
  }

  /** The number of mentions in a segment list. */
  function AtCount(segs: seq<Segment>): nat {
    if segs == [] then 0 else (if segs[0].At? then 1 else 0) + AtCount(segs[1..])
  }

  /**
   * The shape of a rendered segment list: every mention is of the given user,
   * every text is non-empty and holds no marker, and two texts are never
   * adjacent.
   */
  predicate WellFormed(segs: seq<Segment>, userId: string, name: string) {
    if segs == [] then true
    else
      match segs[0]
      case At(u, n) => u == userId && n == name && WellFormed(segs[1..], userId, name)
      case Text(t) =>
        t != "" && !Contains(t) && (|segs| == 1 || segs[1].At?) && WellFormed(segs[1..], userId, name)
  }

  // ---- Split ----------------------------------------------------------------

  lemma {:induction false} SplitJoin(s: string)
    ensures Join(Split(s)) == s
    decreases |s|
  {
    if |s| < 3 {
    } else if s[..3] == Marker {
      SplitJoin(s[3..]);
      assert s == Marker + s[3..];
    } else {
      var rest := Split(s[1..]);
      SplitJoin(s[1..]);
      var p := [s[0]] + rest[0];
      if |rest| == 1 {
        assert s == [s[0]] + s[1..];
      } else {
        assert Join([p] + rest[1..]) == p + Marker + Join(rest[1..]);
        assert Join(rest) == rest[0] + Marker + Join(rest[1..]);
        assert s == [s[0]] + s[1..];
      }
    }
  }

  lemma {:induction false} SplitMarkerFree(s: string)
    ensures forall i :: 0 <= i < |Split(s)| ==> !Contains(Split(s)[i])
    decreases |s|
  {
    if |s| < 3 {
      forall j | 0 <= j < |s| ensures !MarkerAt(s, j) { }
    } else if s[..3] == Marker {
      SplitMarkerFree(s[3..]);
      assert !MarkerAt("", 0);
    } else {
      var rest := Split(s[1..]);
      SplitMarkerFree(s[1..]);
      var p := [s[0]] + rest[0];
      assert p <= s;
      assert |p| >= 3 ==> p[..3] == s[..3];
      assert p[1..] == rest[0];
      forall j | 0 <= j < |p| ensures !MarkerAt(p, j) {
        if j > 0 {
          MarkerShift(p, j - 1);
        }
      }
      assert Split(s) == [p] + rest[1..];
    }
  }

  /** A marker-free string splits into itself. */
  lemma {:induction false} SplitWhole(a: string)
    requires !Contains(a)
    ensures Split(a) == [a]
    decreases |a|
  {
    if |a| >= 3 {
      assert !MarkerAt(a, 0);
      assert !Contains(a[1..]) by {
        forall j | 0 <= j < |a[1..]| ensures !MarkerAt(a[1..], j) {
          MarkerShift(a, j);
        }
      }
      SplitWhole(a[1..]);
      assert [a[0]] + a[1..] == a;
    }
  }

  /** The first marker after a marker-free text ends the first part. */
  lemma {:induction false} SplitAfterText(a: string, r: string)
    requires !Contains(a)
    ensures Split(a + Marker + r) == [a] + Split(r)
    decreases |a|
  {
    var s := a + Marker + r;
    if a == "" {
      assert s[..3] == Marker && s[3..] == r;
    } else {
      assert s[..3] != Marker by {
        if |a| >= 3 {
          assert s[..3] == a[..3];
          assert !MarkerAt(a, 0);
        } else if |a| == 1 {
          assert s[1] == '(';
        } else {
          assert s[2] == '(';
        }
      }
      assert !Contains(a[1..]) by {
        forall j | 0 <= j < |a[1..]| ensures !MarkerAt(a[1..], j) {
          MarkerShift(a, j);
        }
      }
      assert s[1..] == a[1..] + Marker + r;
      SplitAfterText(a[1..], r);
      assert [a[0]] + a[1..] == a;
    }
  }

  /** Dropping the first character moves every marker one place to the left. */
  lemma MarkerShift(a: string, j: int)
    requires |a| >= 1 && j >= 0
    ensures MarkerAt(a[1..], j) <==> MarkerAt(a, j + 1)
  {
    if j + 4 <= |a| {
      assert a[1..][j..j + 3] == a[j + 1..j + 4];
    }
  }

  lemma {:induction false} SplitCount(s: string)
    ensures |Split(s)| == MarkerCount(s) + 1
    decreases |s|
  {
    if |s| < 3 {
    } else if s[..3] == Marker {
      SplitCount(s[3..]);
    } else {
      SplitCount(s[1..]);
    }
  }

  /** `includes` finds a marker exactly when the left-to-right count is positive. */
  lemma {:induction false} ContainsIffCount(s: string)
    ensures Contains(s) <==> MarkerCount(s) > 0
    decreases |s|
  {
    if |s| < 3 {
      forall j | 0 <= j < |s| ensures !MarkerAt(s, j) { }
    } else if s[..3] == Marker {
      assert MarkerAt(s, 0);
    } else {
      ContainsIffCount(s[1..]);
      if Contains(s) {
        var j :| 0 <= j < |s| && MarkerAt(s, j);
        assert j != 0;
        assert s[1..][j - 1..j + 2] == s[j..j + 3];
        assert MarkerAt(s[1..], j - 1);
      }
      if Contains(s[1..]) {
        var j :| 0 <= j < |s[1..]| && MarkerAt(s[1..], j);
        assert s[1..][j..j + 3] == s[j + 1..j + 4];
        assert MarkerAt(s, j + 1);
      }
    }
  }

  // ---- Segment lists ------------------------------------------------------------

  lemma {:induction false} UnrenderAppend(a: seq<Segment>, b: seq<Segment>)
    ensures Unrender(a + b) == Unrender(a) + Unrender(b)
  {
    if a != [] {
      assert (a + b)[1..] == a[1..] + b;
      UnrenderAppend(a[1..], b);
    } else {
      assert a + b == b;
    }
  }

  lemma {:induction false} DropEmptyAppend(a: seq<Segment>, b: seq<Segment>)
    ensures DropEmpty(a + b) == DropEmpty(a) + DropEmpty(b)
  {
    if a != [] {
      assert (a + b)[1..] == a[1..] + b;
      DropEmptyAppend(a[1..], b);
    } else {
      assert a + b == b;
    }
  }

  lemma {:induction false} AtCountAppend(a: seq<Segment>, b: seq<Segment>)
    ensures AtCount(a + b) == AtCount(a) + AtCount(b)
  {
    if a != [] {
      assert (a + b)[1..] == a[1..] + b;
      AtCountAppend(a[1..], b);
    } else {
      assert a + b == b;
    }
  }

  lemma {:induction false} UnrenderDropEmpty(segs: seq<Segment>)
    ensures Unrender(DropEmpty(segs)) == Unrender(segs)
  {
    if segs != [] {
      UnrenderDropEmpty(segs[1..]);
      var head := if segs[0] == Text("") then [] else [segs[0]];
      UnrenderAppend(head, DropEmpty(segs[1..]));
    }
  }

  lemma {:induction false} UnrenderInterleave(parts: seq<string>, userId: string, name: string)
    requires |parts| >= 1
    ensures Unrender(Interleave(parts, userId, name)) == Join(parts)
  {
    if |parts| > 1 {
      UnrenderInterleave(parts[1..], userId, name);
      UnrenderAppend([Text(parts[0]), At(userId, name)], Interleave(parts[1..], userId, name));
      assert Unrender([Text(parts[0]), At(userId, name)]) == parts[0] + Marker;
    }
  }

  lemma {:induction false} InterleaveShape(parts: seq<string>, userId: string, name: string)
    requires |parts| >= 1
    requires forall i :: 0 <= i < |parts| ==> !Contains(parts[i])
    ensures WellFormed(DropEmpty(Interleave(parts, userId, name)), userId, name)
    ensures AtCount(DropEmpty(Interleave(parts, userId, name))) == |parts| - 1
  {
    var head := if parts[0] == "" then [] else [Text(parts[0])];
    if |parts| == 1 {
      assert DropEmpty([Text(parts[0])]) == head;
    } else {
      var tail := DropEmpty(Interleave(parts[1..], userId, name));
      InterleaveShape(parts[1..], userId, name);
      DropEmptyAppend([Text(parts[0]), At(userId, name)], Interleave(parts[1..], userId, name));
      assert DropEmpty([Text(parts[0]), At(userId, name)]) == head + [At(userId, name)];
      var r := head + [At(userId, name)] + tail;
      assert DropEmpty(Interleave(parts, userId, name)) == r;
      assert WellFormed([At(userId, name)] + tail, userId, name) by {
        assert ([At(userId, name)] + tail)[1..] == tail;
      }
      if head != [] {
        assert r[1..] == [At(userId, name)] + tail;
      }
      AtCountAppend(head, [At(userId, name)] + tail);
      assert AtCount([At(userId, name)] + tail) == 1 + AtCount(tail) by {
        assert ([At(userId, name)] + tail)[1..] == tail;
      }
    }
  }

  // ---- The properties of renderMessage --------------------------------------------

  /** A template without `(@)` comes back unchanged. */
  lemma NoMarkerUnchanged(template: string, userId: string, name: string)
    requires MarkerCount(template) == 0
    ensures RenderMessage(template, userId, name) == Plain(template)
  {
    ContainsIffCount(template);
  }

  /**
   * Writing each mention back as `(@)` and concatenating gives the original
   * template, whichever form the result takes.
   */
  lemma RenderRoundTrip(template: string, userId: string, name: string)
    ensures Written(RenderMessage(template, userId, name)) == template
  {
    if Contains(template) {
      var parts := Split(template);
      UnrenderDropEmpty(Interleave(parts, userId, name));
      UnrenderInterleave(parts, userId, name);
      SplitJoin(template);
    }
  }

  /**
   * A template with `(@)` becomes a non-empty segment list with one mention of
   * the user per occurrence of the marker, no empty text, no marker left in any
   * text and no two texts next to each other.
   */
  lemma RenderShape(template: string, userId: string, name: string)
    requires MarkerCount(template) > 0
    ensures RenderMessage(template, userId, name).Elements?
    ensures var segs := RenderMessage(template, userId, name).segments;
      && WellFormed(segs, userId, name)
      && AtCount(segs) == MarkerCount(template)
      && |segs| > 0
  {
    ContainsIffCount(template);
    var parts := Split(template);
    SplitMarkerFree(template);
    SplitCount(template);
    InterleaveShape(parts, userId, name);
  }

  /**
   * The converse round trip: a well-formed segment list is exactly what its
   * written-back template renders to (as that template itself when it holds no
   * mention). So the segmentation `renderMessage` produces is the only one with
   * the shape of `WellFormed`.
   */
  lemma RenderUnrender(segs: seq<Segment>, userId: string, name: string)
    requires WellFormed(segs, userId, name)
    ensures RenderMessage(Unrender(segs), userId, name)
         == if AtCount(segs) > 0 then Elements(segs) else Plain(Unrender(segs))
  {
    var u := Unrender(segs);
    ResplitUnrender(segs, userId, name);
    SplitMarkerFree(u);
    InterleaveShape(Split(u), userId, name);
    SplitCount(u);
    ContainsIffCount(u);
  }

  lemma {:induction false} ResplitUnrender(segs: seq<Segment>, userId: string, name: string)
    requires WellFormed(segs, userId, name)
    ensures DropEmpty(Interleave(Split(Unrender(segs)), userId, name)) == segs
    decreases |segs|
  {
    if segs == [] {
      assert Split("") == [""];
    } else if segs[0].At? {
      ResplitUnrender(segs[1..], userId, name);
      ResplitAfterAt(segs, userId, name);
    } else if |segs| == 1 {
      SplitWhole(segs[0].text);
      assert Unrender(segs) == segs[0].text;
    } else {
      assert WellFormed(segs[1..], userId, name);
      assert segs[1..][1..] == segs[2..];
      ResplitUnrender(segs[2..], userId, name);
      ResplitAfterTextAt(segs, userId, name);
    }
  }

  lemma ResplitAfterAt(segs: seq<Segment>, userId: string, name: string)
    requires segs != [] && segs[0] == At(userId, name)
    requires DropEmpty(Interleave(Split(Unrender(segs[1..])), userId, name)) == segs[1..]
    ensures DropEmpty(Interleave(Split(Unrender(segs)), userId, name)) == segs
  {
    var rest := segs[1..];
    var s := Unrender(segs);
    assert s == Marker + Unrender(rest);
    assert s[..3] == Marker && s[3..] == Unrender(rest);
    var parts := Split(Unrender(rest));
    assert Split(s) == [""] + parts;
    assert ([""] + parts)[1..] == parts;
    assert Interleave(Split(s), userId, name) == [Text(""), At(userId, name)] + Interleave(parts, userId, name);
    DropEmptyAppend([Text(""), At(userId, name)], Interleave(parts, userId, name));
    assert DropEmpty([Text(""), At(userId, name)]) == [At(userId, name)];
    assert segs == [At(userId, name)] + rest;
  }

  lemma ResplitAfterTextAt(segs: seq<Segment>, userId: string, name: string)
    requires |segs| >= 2 && segs[0].Text? && segs[0].text != "" && !Contains(segs[0].text)
    requires segs[1] == At(userId, name)
    requires DropEmpty(Interleave(Split(Unrender(segs[2..])), userId, name)) == segs[2..]
    ensures DropEmpty(Interleave(Split(Unrender(segs)), userId, name)) == segs
  {
    var a := segs[0].text;
    var rest2 := segs[2..];
    assert segs[1..][1..] == rest2;
    assert Unrender(segs) == a + (Marker + Unrender(rest2));
    assert Unrender(segs) == a + Marker + Unrender(rest2);
    SplitAfterText(a, Unrender(rest2));
    var parts := Split(Unrender(rest2));
    assert ([a] + parts)[1..] == parts;
    assert Interleave([a] + parts, userId, name) == [Text(a), At(userId, name)] + Interleave(parts, userId, name);
    DropEmptyAppend([Text(a), At(userId, name)], Interleave(parts, userId, name));
    assert DropEmpty([Text(a), At(userId, name)]) == [Text(a), At(userId, name)];
    assert segs == [Text(a), At(userId, name)] + rest2;
  }
}
