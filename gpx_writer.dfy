/** The per-waypoint text step of `write_gpx` in scripts/deduplicate_gpx.py:
    the displayed name with its fallbacks, and XML escaping by three chained
    `replace` calls (`&` first, then `<`, then `>`). */
module GpxWriter {
  import opened GpxRecords

  /** The name written for a waypoint: its name, else its description, else `"Point"`. */
  function DisplayName(w: Waypoint): (r: string)
    ensures r != ""
    ensures w.name != "" ==> r == w.name
    ensures w.name == "" && w.desc != "" ==> r == w.desc
    ensures w.name == "" && w.desc == "" ==> r == "Point"
  {
    if w.name != "" then w.name else if w.desc != "" then w.desc else "Point"
  }

  /** Python's `str.replace` with a one-character pattern: every occurrence
      of `c`, from left to right, becomes `rep`. */
  function ReplaceChar(s: string, c: char, rep: string): (r: string)
    ensures c !in rep ==> c !in r
  {
    if s == [] then []
    else (if s[0] == c then rep else [s[0]]) + ReplaceChar(s[1..], c, rep)
  }

  /** XML escaping as `write_gpx` does it: every `&` is replaced first, then
      every `<`, then every `>`. */
  function Escape(s: string): string
  {
    ReplaceChar(ReplaceChar(ReplaceChar(s, '&', "&amp;"), '<', "&lt;"), '>', "&gt;")
  }

  /** The entity one character becomes in a single left-to-right pass. */
  function EscapeChar(c: char): string
  {
    if c == '&' then "&amp;" else if c == '<' then "&lt;" else if c == '>' then "&gt;" else [c]
  }

  /** Reference escaping: each character replaced once, none re-examined. */
  function EscapeEach(s: string): string
  {
    if s == [] then [] else EscapeChar(s[0]) + EscapeEach(s[1..])
  }

  /** XML's reading of the three entities, the inverse of escaping. */
  function Unescape(t: string): string
  {
    if t == [] then []
    else if |t| >= 5 && t[..5] == "&amp;" then "&" + Unescape(t[5..])
    else if |t| >= 4 && t[..4] == "&lt;" then "<" + Unescape(t[4..])
    else if |t| >= 4 && t[..4] == "&gt;" then ">" + Unescape(t[4..])
    else [t[0]] + Unescape(t[1..])
  }

  /** One `<wpt>` element as `write_gpx` emits it; `desc` and `cmt` are
      `None` when their escaped text is empty, so that no line is written. */
  datatype WptElement = WptElement(
    lat: real,
    lon: real,
    name: string,
    desc: Option<string>,
    cmt: Option<string>,
    sym: string)

  /** The element written for one waypoint: escaped name, desc and cmt, and
      the symbol unescaped, as the loop body of `write_gpx` builds them. */
  function ElementOf(w: Waypoint): (e: WptElement)
    ensures e.name == EscapeEach(DisplayName(w))
    ensures e.desc.Some? ==> e.desc.value == EscapeEach(w.desc)
    ensures e.cmt.Some? ==> e.cmt.value == EscapeEach(w.cmt)
    ensures e.name != "" && Unescape(e.name) == DisplayName(w)
    ensures e.desc.Some? <==> w.desc != ""
    ensures e.cmt.Some? <==> w.cmt != ""
    ensures e.desc.Some? ==> Unescape(e.desc.value) == w.desc
    ensures e.cmt.Some? ==> Unescape(e.cmt.value) == w.cmt
    ensures '<' !in e.name && '>' !in e.name
    ensures e.desc.Some? ==> '<' !in e.desc.value && '>' !in e.desc.value
    ensures e.cmt.Some? ==> '<' !in e.cmt.value && '>' !in e.cmt.value
    ensures e.lat == w.lat && e.lon == w.lon && e.sym == w.sym
  {
    var name := Escape(DisplayName(w));
    var desc := Escape(w.desc);
    var cmt := Escape(w.cmt);
    EscapeRoundTrip(DisplayName(w));
    EscapeRoundTrip(w.desc);
    EscapeRoundTrip(w.cmt);
    EscapeNoAngles(DisplayName(w));
    EscapeNoAngles(w.desc);
    EscapeNoAngles(w.cmt);
    EscapeLength(DisplayName(w));
    EscapeLength(w.desc);
    EscapeLength(w.cmt);
    EscapeIsSinglePass(DisplayName(w));
    EscapeIsSinglePass(w.desc);
    EscapeIsSinglePass(w.cmt);
    WptElement(w.lat, w.lon, name,
               if desc != "" then Some(desc) else None,
               if cmt != "" then Some(cmt) else None,
               w.sym)
  }

  lemma {:induction false} ReplaceCharAppend(a: string, b: string, c: char, rep: string)
    ensures ReplaceChar(a + b, c, rep) == ReplaceChar(a, c, rep) + ReplaceChar(b, c, rep)
  {
    if a == [] {
      assert a + b == b;
    } else {
      ReplaceCharAppend(a[1..], b, c, rep);
      assert (a + b)[1..] == a[1..] + b;
    }
  }

  /** A string without the pattern character is not changed by `replace`. */
  lemma {:induction false} ReplaceCharAbsent(s: string, c: char, rep: string)
    requires c !in s
    ensures ReplaceChar(s, c, rep) == s
  {
    if s != [] {
      ReplaceCharAbsent(s[1..], c, rep);
      assert s == [s[0]] + s[1..];
    }
  }

  lemma ReplaceCharOne(c: char, x: char, rep: string)
    ensures ReplaceChar([c], x, rep) == if c == x then rep else [c]
  {
    assert [c][1..] == [];
  }

  /** The three chained replacements applied to one character. */
  lemma EscapeOfChar(c: char)
    ensures Escape([c]) == EscapeChar(c)
  {
    ReplaceCharOne(c, '&', "&amp;");
    if c == '&' {
      ReplaceCharAbsent("&amp;", '<', "&lt;");
      ReplaceCharAbsent("&amp;", '>', "&gt;");
    } else {
      ReplaceCharOne(c, '<', "&lt;");
      if c == '<' {
        ReplaceCharAbsent("&lt;", '>', "&gt;");
      } else {
        ReplaceCharOne(c, '>', "&gt;");
      }
    }
  }

  /** Because `&` is replaced first, the `&` of the `&lt;` and `&gt;` inserted
      later is never re-escaped: the chain equals a single pass. */
  lemma {:induction false} EscapeIsSinglePass(s: string)
    ensures Escape(s) == EscapeEach(s)
  {
    if s != [] {
      var rest := s[1..];
      assert s == [s[0]] + rest;
      ReplaceCharAppend([s[0]], rest, '&', "&amp;");
      ReplaceCharAppend(ReplaceChar([s[0]], '&', "&amp;"), ReplaceChar(rest, '&', "&amp;"), '<', "&lt;");
      ReplaceCharAppend(ReplaceChar(ReplaceChar([s[0]], '&', "&amp;"), '<', "&lt;"),
                        ReplaceChar(ReplaceChar(rest, '&', "&amp;"), '<', "&lt;"), '>', "&gt;");
      assert Escape(s) == Escape([s[0]]) + Escape(rest);
      EscapeOfChar(s[0]);
      EscapeIsSinglePass(rest);
    }
  }

  lemma {:induction false} EscapeEachNoAngles(s: string)
    ensures '<' !in EscapeEach(s) && '>' !in EscapeEach(s)
  {
    if s != [] {
      EscapeEachNoAngles(s[1..]);
    }
  }

  /** Escaped text contains no `<` and no `>`. */
  lemma EscapeNoAngles(s: string)
    ensures '<' !in Escape(s) && '>' !in Escape(s)
  {
    EscapeIsSinglePass(s);
    EscapeEachNoAngles(s);
  }

  /** Text without `&`, `<` and `>` is left unchanged. */
  lemma EscapeUnchanged(s: string)
    requires '&' !in s && '<' !in s && '>' !in s
    ensures Escape(s) == s
  {
    ReplaceCharAbsent(s, '&', "&amp;");
    ReplaceCharAbsent(s, '<', "&lt;");
    ReplaceCharAbsent(s, '>', "&gt;");
  }

  /** Escaping never shortens, so only the empty string escapes to empty. */
  lemma {:induction false} EscapeLength(s: string)
    ensures |Escape(s)| >= |s|
    ensures Escape(s) == "" <==> s == ""
  {
    EscapeIsSinglePass(s);
    EscapeEachLength(s);
  }

  lemma {:induction false} EscapeEachLength(s: string)
    ensures |EscapeEach(s)| >= |s|
  {
    if s != [] {
      EscapeEachLength(s[1..]);
    }
  }

  /** Reading the escaped text back gives the original text. */
  lemma {:induction false} EscapeRoundTrip(s: string)
    ensures Unescape(Escape(s)) == s
  {
    EscapeIsSinglePass(s);
    EscapeEachRoundTrip(s);
  }

  lemma {:induction false} EscapeEachRoundTrip(s: string)
    ensures Unescape(EscapeEach(s)) == s
  {
    if s != [] {
      var c, rest := s[0], EscapeEach(s[1..]);
      var t := EscapeChar(c) + rest;
      EscapeEachRoundTrip(s[1..]);
      if c == '&' {
        assert t[..5] == "&amp;" && t[5..] == rest;
      } else if c == '<' {
        assert |t| >= 5 ==> t[..5][1] == 'l';
        assert t[..4] == "&lt;" && t[4..] == rest;
      } else if c == '>' {
        assert |t| >= 5 ==> t[..5][1] == 'g';
        assert t[..4][1] == 'g';
        assert t[..4] == "&gt;" && t[4..] == rest;
      } else {
        assert t[0] == c && t[1..] == rest;
        assert |t| >= 5 ==> t[..5][0] == c;
        assert |t| >= 4 ==> t[..4][0] == c;
      }
      assert Unescape(t) == [c] + Unescape(rest);
      assert s == [c] + s[1..];
    }
  }
}
