/** The include annotation: a comma-separated list of chart names (internal/pkg/defaulting/applicationcatalog.go). */
module IncludeList {

  /** Go's `unicode.IsSpace`. */
  predicate IsSpace(ch: char) {
    var u := ch as int;
    0x09 <= u <= 0x0D || u == 0x20 || u == 0x85 || u == 0xA0 || u == 0x1680 || 0x2000 <= u <= 0x200A
    || u == 0x2028 || u == 0x2029 || u == 0x202F || u == 0x205F || u == 0x3000
  }

  function TrimLeft(s: string): string {
    if s != [] && IsSpace(s[0]) then TrimLeft(s[1..]) else s
  }

  function TrimRight(s: string): string {
    if s != [] && IsSpace(s[|s| - 1]) then TrimRight(s[..|s| - 1]) else s
  }

  function TrimSpace(s: string): string {
    TrimRight(TrimLeft(s))
  }

  /** `strings.Split(s, ",")`: never empty. */
  function Split(s: string): (parts: seq<string>)
    ensures parts != []
  {
    if s == [] then [""]
    else
      var rest := Split(s[1..]);
      if s[0] == ',' then [""] + rest else [[s[0]] + rest[0]] + rest[1..]
  }

  function TrimAll(parts: seq<string>): (r: seq<string>)
    ensures |r| == |parts|
  {
    seq(|parts|, i requires 0 <= i < |parts| => TrimSpace(parts[i]))
  }

  /** The names that an annotation requests; the empty annotation requests nothing. */
  function Requested(annotation: string): seq<string> {
    if annotation == "" then [] else TrimAll(Split(annotation))
  }

  method ParseIncludeList(annotation: string) returns (parts: seq<string>)
    ensures parts == Requested(annotation)
  {
    if annotation == "" {
      return [];
    }
    parts := Split(annotation);
    for i := 0 to |parts|
      invariant |parts| == |Split(annotation)|
      invariant parts[..i] == TrimAll(Split(annotation))[..i]
      invariant parts[i..] == Split(annotation)[i..]
    {
      parts := parts[i := TrimSpace(parts[i])];
    }
  }

  // ---- Round trip ----

  function Join(parts: seq<string>): string
    requires parts != []
  {
    if |parts| == 1 then parts[0] else parts[0] + "," + Join(parts[1..])
  }

  ghost predicate Blank(s: string) {
    forall i :: 0 <= i < |s| ==> IsSpace(s[i])
  }

  /** No surrounding white space and no comma. */
  ghost predicate PlainName(s: string) {
    && (s != [] ==> !IsSpace(s[0]) && !IsSpace(s[|s| - 1]))
    && (forall i :: 0 <= i < |s| ==> s[i] != ',')
  }

  ghost predicate CommaFree(s: string) {
    forall i :: 0 <= i < |s| ==> s[i] != ','
  }

  lemma {:induction false} SplitOne(s: string)
    requires CommaFree(s)
    ensures Split(s) == [s]
  {
    if s != [] {
      assert forall i :: 0 <= i < |s[1..]| ==> s[1..][i] == s[i + 1];
      SplitOne(s[1..]);
      assert s == [s[0]] + s[1..];
    }
  }

  lemma {:induction false} SplitFirst(s: string, rest: string)
    requires CommaFree(s)
    ensures Split(s + "," + rest) == [s] + Split(rest)
  {
    var all := s + "," + rest;
    if s == [] {
      assert all[0] == ',' && all[1..] == rest;
    } else {
      assert forall i :: 0 <= i < |s[1..]| ==> s[1..][i] == s[i + 1];
      assert all[0] == s[0] && all[1..] == s[1..] + "," + rest;
      SplitFirst(s[1..], rest);
      assert s == [s[0]] + s[1..];
      assert ([s[1..]] + Split(rest))[1..] == Split(rest);
    }
  }

  lemma {:induction false} SplitJoin(parts: seq<string>)
    requires parts != [] && forall i :: 0 <= i < |parts| ==> CommaFree(parts[i])
    ensures Split(Join(parts)) == parts
  {
    if |parts| == 1 {
      SplitOne(parts[0]);
    } else {
      SplitFirst(parts[0], Join(parts[1..]));
      SplitJoin(parts[1..]);
    }
  }

  lemma {:induction false} TrimLeftPad(pad: string, s: string)
    requires Blank(pad)
    ensures TrimLeft(pad + s) == TrimLeft(s)
  {
    if pad == [] {
      assert pad + s == s;
    } else {
      assert forall i :: 0 <= i < |pad[1..]| ==> pad[1..][i] == pad[i + 1];
      assert (pad + s)[0] == pad[0] && (pad + s)[1..] == pad[1..] + s;
      TrimLeftPad(pad[1..], s);
    }
  }

  lemma {:induction false} TrimRightPad(s: string, pad: string)
    requires Blank(pad)
    ensures TrimRight(s + pad) == TrimRight(s)
  {
    if pad == [] {
      assert s + pad == s;
    } else {
      var shorter := pad[..|pad| - 1];
      assert (s + pad)[|s + pad| - 1] == pad[|pad| - 1] && (s + pad)[..|s + pad| - 1] == s + shorter;
      TrimRightPad(s, shorter);
    }
  }

  lemma TrimBlank(pad: string)
    requires Blank(pad)
    ensures TrimLeft(pad) == ""
  {
    assert pad == pad + "";
    TrimLeftPad(pad, "");
  }

  lemma TrimPadded(before: string, name: string, after: string)
    requires Blank(before) && Blank(after) && PlainName(name)
    ensures TrimSpace(before + name + after) == name
  {
    assert before + name + after == before + (name + after);
    TrimLeftPad(before, name + after);
    if name == [] {
      assert name + after == after;
      TrimBlank(after);
    } else {
      assert (name + after)[0] == name[0];
      TrimRightPad(name, after);
    }
  }

  function Padded(before: seq<string>, names: seq<string>, after: seq<string>): (r: seq<string>)
    requires |before| == |names| == |after|
    ensures |r| == |names|
  {
    seq(|names|, i requires 0 <= i < |names| => before[i] + names[i] + after[i])
  }

  /** Joining names with commas, with any white space around each, and parsing gives back the names - exactly unless
      the text came out empty, which requests nothing at all. */
  lemma IncludeListRoundTrip(before: seq<string>, names: seq<string>, after: seq<string>)
    requires |before| == |names| == |after| && names != []
    requires forall i :: 0 <= i < |names| ==> Blank(before[i]) && PlainName(names[i]) && Blank(after[i])
    ensures Requested(Join(Padded(before, names, after))) == names <==> Join(Padded(before, names, after)) != ""
    ensures (exists i :: 0 <= i < |names| && names[i] != "") ==> Join(Padded(before, names, after)) != ""
  {
    var parts := Padded(before, names, after);
    forall i | 0 <= i < |names|
      ensures CommaFree(parts[i]) && TrimSpace(parts[i]) == names[i]
    {
      TrimPadded(before[i], names[i], after[i]);
    }
    SplitJoin(parts);
    if Join(parts) != "" {
      assert TrimAll(parts) == names;
    } else {
      JoinEmpty(parts);
    }
  }

  lemma JoinEmpty(parts: seq<string>)
    requires parts != [] && Join(parts) == ""
    ensures parts == [""]
  {
  }

  // ---- The parts without recursion ----

  /** White space, code point by code point. */
  lemma IsSpaceExactly(ch: char)
    ensures IsSpace(ch) <==> ch as int in {
              0x0009, 0x000A, 0x000B, 0x000C, 0x000D, 0x0020, 0x0085, 0x00A0, 0x1680,
              0x2000, 0x2001, 0x2002, 0x2003, 0x2004, 0x2005, 0x2006, 0x2007, 0x2008, 0x2009, 0x200A,
              0x2028, 0x2029, 0x202F, 0x205F, 0x3000}
  {
  }

  /** Splitting loses nothing and leaves no comma. */
  lemma {:induction false} SplitExactly(s: string)
    ensures Join(Split(s)) == s && forall i :: 0 <= i < |Split(s)| ==> CommaFree(Split(s)[i])
  {
    if s != [] {
      var rest := Split(s[1..]);
      SplitExactly(s[1..]);
      assert s == [s[0]] + s[1..];
      if s[0] == ',' {
        assert ([""] + rest)[1..] == rest;
      } else {
        var first := [s[0]] + rest[0];
        assert ([first] + rest[1..])[1..] == rest[1..];
        assert CommaFree(first);
      }
    }
  }

  lemma {:induction false} TrimLeftExactly(s: string) returns (pad: string)
    ensures Blank(pad) && s == pad + TrimLeft(s)
    ensures TrimLeft(s) != [] ==> !IsSpace(TrimLeft(s)[0])
  {
    if s != [] && IsSpace(s[0]) {
      var rest := TrimLeftExactly(s[1..]);
      pad := [s[0]] + rest;
      assert s == [s[0]] + s[1..];
    } else {
      pad := "";
    }
  }

  lemma {:induction false} TrimRightExactly(s: string) returns (pad: string)
    ensures Blank(pad) && s == TrimRight(s) + pad
    ensures TrimRight(s) != [] ==> !IsSpace(TrimRight(s)[|TrimRight(s)| - 1]) && TrimRight(s)[0] == s[0]
  {
    if s != [] && IsSpace(s[|s| - 1]) {
      var rest := TrimRightExactly(s[..|s| - 1]);
      pad := rest + [s[|s| - 1]];
      assert s == s[..|s| - 1] + [s[|s| - 1]];
    } else {
      pad := "";
    }
  }

  /** Trimming takes white space off both ends, and all of it. */
  lemma TrimExactly(s: string) returns (before: string, after: string)
    ensures Blank(before) && Blank(after) && s == before + TrimSpace(s) + after
    ensures TrimSpace(s) != [] ==> !IsSpace(TrimSpace(s)[0]) && !IsSpace(TrimSpace(s)[|TrimSpace(s)| - 1])
  {
    before := TrimLeftExactly(s);
    after := TrimRightExactly(TrimLeft(s));
  }

  lemma {:induction false} TrimEach(parts: seq<string>) returns (before: seq<string>, after: seq<string>)
    requires forall i :: 0 <= i < |parts| ==> CommaFree(parts[i])
    ensures |before| == |parts| == |after| && Padded(before, TrimAll(parts), after) == parts
    ensures forall i :: 0 <= i < |parts| ==>
              Blank(before[i]) && PlainName(TrimAll(parts)[i]) && Blank(after[i])
  {
    before, after := [], [];
    if parts != [] {
      var rest, last := parts[..|parts| - 1], parts[|parts| - 1];
      before, after := TrimEach(rest);
      assert TrimAll(rest) == TrimAll(parts)[..|rest|];
      var b, a := TrimExactly(last);
      forall i | 0 <= i < |TrimSpace(last)|
        ensures TrimSpace(last)[i] != ','
      {
        assert last[|b| + i] == TrimSpace(last)[i];
      }
      before, after := before + [b], after + [a];
      forall i | 0 <= i < |parts|
        ensures Padded(before, TrimAll(parts), after)[i] == parts[i]
      {
        assert i < |rest| ==> Padded(before[..|rest|], TrimAll(rest), after[..|rest|])[i] == rest[i];
      }
    }
  }

  /** The other half of the round trip: every annotation is its requested names, joined with commas and surrounded by
      white space. */
  lemma RequestedExactly(annotation: string) returns (before: seq<string>, after: seq<string>)
    requires annotation != ""
    ensures var names := Requested(annotation);
            && |before| == |names| == |after| && names != []
            && (forall i :: 0 <= i < |names| ==> Blank(before[i]) && PlainName(names[i]) && Blank(after[i]))
            && annotation == Join(Padded(before, names, after))
  {
    SplitExactly(annotation);
    before, after := TrimEach(Split(annotation));
  }
}
