/**
 * The "Transcribe" ribbon command: every file the active note links to is
 * sent for transcription, and each reference to it in the note gets the
 * transcript spliced in after it.
 *
 * The references are found with a global regular expression built from the
 * URI-encoded file name and path; here the alternatives are matched as
 * literal strings and the replacement is inserted literally.
 */
module Transcribe {
  import opened Wrappers
  import opened Text
  import opened Vault

  // ---------------------------------------------------------------------
  // encodeURI (section 19.2.6.5 of ECMA-262, "Encode")
  // ---------------------------------------------------------------------

  /** The characters `encodeURI` keeps: uriReserved, uriUnescaped and `#`. */
  predicate Unescaped(ch: char) {
    ('a' <= ch <= 'z') || ('A' <= ch <= 'Z') || ('0' <= ch <= '9') || ch in ";/?:@&=+$,-_.!~*'()#"
  }

  /** The UTF-8 encoding of a code point (section 3 of RFC 3629), byte by byte. */
  function Utf8(cp: nat): (bytes: seq<nat>)
    requires cp < 0x110000
    ensures 1 <= |bytes| <= 4 && forall i :: 0 <= i < |bytes| ==> bytes[i] < 256
  {
    if cp < 0x80 then [cp]
    else if cp < 0x800 then [0xC0 + cp / 0x40, 0x80 + cp % 0x40]
    else if cp < 0x10000 then [0xE0 + cp / 0x1000, 0x80 + cp / 0x40 % 0x40, 0x80 + cp % 0x40]
    else [0xF0 + cp / 0x40000, 0x80 + cp / 0x1000 % 0x40, 0x80 + cp / 0x40 % 0x40, 0x80 + cp % 0x40]
  }

  /** The code point a well-formed UTF-8 sequence of one to four bytes stands for. */
  function Utf8Value(bytes: seq<nat>): int
    requires 1 <= |bytes| <= 4
  {
    var b0: int := bytes[0];
    if |bytes| == 1 then b0
    else
      var tail: int := Utf8Tail(bytes[1..]);
      if |bytes| == 2 then (b0 - 0xC0) * 0x40 + tail
      else if |bytes| == 3 then (b0 - 0xE0) * 0x1000 + tail
      else (b0 - 0xF0) * 0x40000 + tail
  }

  /** The payload bits of continuation bytes, six per byte. */
  function Utf8Tail(bytes: seq<nat>): int
    decreases |bytes|
  {
    if |bytes| == 0 then 0
    else
      var last: int := bytes[|bytes| - 1];
      Utf8Tail(bytes[..|bytes| - 1]) * 0x40 + (last - 0x80)
  }

  predicate Continuation(b: nat) {
    0x80 <= b < 0xC0
  }

  /**
   * The encoding is the shortest form and reads back: the lead byte says how
   * many bytes follow, every continuation byte is `10xxxxxx`, and decoding
   * gives the code point again.
   */
  lemma Utf8RoundTrip(cp: nat)
    requires cp < 0x110000
    ensures var bytes := Utf8(cp);
            && Utf8Value(bytes) == cp
            && (|bytes| == 1 <==> bytes[0] < 0x80)
            && (|bytes| == 2 <==> 0xC0 <= bytes[0] < 0xE0)
            && (|bytes| == 3 <==> 0xE0 <= bytes[0] < 0xF0)
            && (|bytes| == 4 <==> 0xF0 <= bytes[0] < 0xF8)
            && forall i :: 1 <= i < |bytes| ==> Continuation(bytes[i])
  {
    var bytes := Utf8(cp);
    if cp < 0x80 {
    } else if cp < 0x800 {
      Utf8Two(cp, bytes);
    } else if cp < 0x10000 {
      Utf8Three(cp, bytes);
    } else {
      Utf8Four(cp, bytes);
    }
  }

  lemma Utf8Two(cp: nat, bytes: seq<nat>)
    requires 0x80 <= cp < 0x800 && bytes == Utf8(cp)
    ensures |bytes| == 2 && Utf8Value(bytes) == cp && 0xC0 <= bytes[0] < 0xE0 && Continuation(bytes[1])
  {
    var hi, lo := cp / 0x40, cp % 0x40;
    assert cp == hi * 0x40 + lo;
    assert bytes == [0xC0 + hi, 0x80 + lo];
    assert Utf8Tail(bytes[1..]) == lo by {
      assert bytes[1..][..0] == [];
    }
  }

  lemma Utf8Three(cp: nat, bytes: seq<nat>)
    requires 0x800 <= cp < 0x10000 && bytes == Utf8(cp)
    ensures |bytes| == 3 && Utf8Value(bytes) == cp && 0xE0 <= bytes[0] < 0xF0
    ensures Continuation(bytes[1]) && Continuation(bytes[2])
  {
    var q := cp / 0x40;
    var a, b, c := q / 0x40, q % 0x40, cp % 0x40;
    assert cp == q * 0x40 + c;
    assert q == a * 0x40 + b;
    assert a == cp / 0x1000;
    assert bytes == [0xE0 + a, 0x80 + b, 0x80 + c];
    var t := bytes[1..];
    assert t[..1][..0] == [];
    assert Utf8Tail(t[..1]) == b;
    assert t[..2][..1] == t[..1];
    assert t[..2] == t;
    assert Utf8Tail(t) == b * 0x40 + c;
    assert Utf8Value(bytes) == a * 0x1000 + b * 0x40 + c;
  }

  lemma Utf8Four(cp: nat, bytes: seq<nat>)
    requires 0x10000 <= cp < 0x110000 && bytes == Utf8(cp)
    ensures |bytes| == 4 && Utf8Value(bytes) == cp && 0xF0 <= bytes[0] < 0xF8
    ensures Continuation(bytes[1]) && Continuation(bytes[2]) && Continuation(bytes[3])
  {
    var q := cp / 0x40;
    var r := q / 0x40;
    var a, b, c, d := r / 0x40, r % 0x40, q % 0x40, cp % 0x40;
    assert cp == q * 0x40 + d;
    assert q == r * 0x40 + c;
    assert r == a * 0x40 + b;
    assert r == cp / 0x1000;
    assert a == cp / 0x40000;
    assert bytes == [0xF0 + a, 0x80 + b, 0x80 + c, 0x80 + d];
    var t := bytes[1..];
    assert t[..1][..0] == [];
    assert Utf8Tail(t[..1]) == b;
    assert t[..2][..1] == t[..1];
    assert Utf8Tail(t[..2]) == b * 0x40 + c;
    assert t[..3][..2] == t[..2];
    assert t[..3] == t;
    assert Utf8Tail(t) == (b * 0x40 + c) * 0x40 + d;
    assert Utf8Value(bytes) == a * 0x40000 + b * 0x1000 + c * 0x40 + d;
  }

  const HexDigits: string := "0123456789ABCDEF"

  /** Bytes as `%XY` escapes with upper-case hexadecimal digits. */
  function Percent(bytes: seq<nat>): (s: string)
    requires forall i :: 0 <= i < |bytes| ==> bytes[i] < 256
    ensures |s| == 3 * |bytes|
  {
    if |bytes| == 0 then ""
    else ['%', HexDigits[bytes[0] / 16], HexDigits[bytes[0] % 16]] + Percent(bytes[1..])
  }

  function EncodeChar(ch: char): string {
    if Unescaped(ch) then [ch] else Percent(Utf8(ch as nat))
  }

  /**
   * `encodeURI(s)`. A Dafny `char` is a Unicode scalar value, so the lone
   * surrogates on which `encodeURI` throws cannot arise.
   */
  function EncodeURI(s: string): string {
    if |s| == 0 then "" else EncodeChar(s[0]) + EncodeURI(s[1..])
  }

  /** Encoding works character by character. */
  lemma {:induction false} EncodeURIAppend(a: string, b: string)
    ensures EncodeURI(a + b) == EncodeURI(a) + EncodeURI(b)
  {
    if |a| > 0 {
      assert (a + b)[1..] == a[1..] + b;
      EncodeURIAppend(a[1..], b);
    } else {
      assert a + b == b;
    }
  }

  /** A text made only of kept characters is its own encoding. */
  lemma {:induction false} EncodeURIKeeps(s: string)
    requires forall i :: 0 <= i < |s| ==> Unescaped(s[i])
    ensures EncodeURI(s) == s
  {
    if |s| > 0 {
      EncodeURIKeeps(s[1..]);
    }
  }

  /** The characters an encoded text is made of: kept ones and `%` (the hexadecimal digits of an escape are kept characters too). */
  predicate UriChar(ch: char) {
    Unescaped(ch) || ch == '%'
  }

  lemma {:induction false} PercentChars(bytes: seq<nat>)
    requires forall i :: 0 <= i < |bytes| ==> bytes[i] < 256
    ensures forall i :: 0 <= i < |Percent(bytes)| ==> UriChar(Percent(bytes)[i])
  {
    if |bytes| > 0 {
      PercentChars(bytes[1..]);
      var head: string := ['%', HexDigits[bytes[0] / 16], HexDigits[bytes[0] % 16]];
      assert Percent(bytes) == head + Percent(bytes[1..]);
    }
  }

  /**
   * Only kept characters, `%` and hexadecimal digits come out; in particular
   * no space, `[`, `]` or `%`-free non-ASCII character survives encoding.
   */
  lemma {:induction false} EncodeURIChars(s: string)
    ensures forall i :: 0 <= i < |EncodeURI(s)| ==> UriChar(EncodeURI(s)[i])
  {
    if |s| > 0 {
      EncodeURIChars(s[1..]);
      if !Unescaped(s[0]) {
        PercentChars(Utf8(s[0] as nat));
      }
    }
  }

  // ---------------------------------------------------------------------
  // Finding the references
  // ---------------------------------------------------------------------

  /**
   * The four ways a note may refer to the file, in the order the regular
   * expression lists them: wiki link and embed by name, then by path.
   */
  function Forms(name: string, path: string): (forms: seq<string>)
    ensures |forms| == 4 && NonEmpty(forms)
  {
    var n := EncodeURI(name);
    var p := EncodeURI(path);
    ["[[" + n + "]]", "![](" + n + ")", "[[" + p + "]]", "![](" + p + ")"]
  }

  predicate NonEmpty(forms: seq<string>) {
    forall k :: 0 <= k < |forms| ==> |forms[k]| > 0
  }

  /** The first alternative, in order, that matches at `i`: a regular expression tries them left to right. */
  function MatchAt(data: string, forms: seq<string>, i: nat, k: nat): (alt: Option<nat>)
    ensures alt.Some? ==> k <= alt.value < |forms| && OccursAt(data, forms[alt.value], i)
    ensures alt.Some? ==> forall m :: k <= m < alt.value ==> !OccursAt(data, forms[m], i)
    ensures alt.None? ==> forall m :: k <= m < |forms| ==> !OccursAt(data, forms[m], i)
    decreases |forms| - k
  {
    if k >= |forms| then None
    else if OccursAt(data, forms[k], i) then Some(k)
    else MatchAt(data, forms, i, k + 1)
  }

  /** A match: where it starts and which alternative matched. */
  datatype Hit = Hit(at: nat, alt: nat)

  /** `regex.exec(data)` from `from`: the leftmost position where some alternative matches. */
  function FindFrom(data: string, forms: seq<string>, from: nat): (h: Option<Hit>)
    requires NonEmpty(forms)
    ensures h.Some? ==> from <= h.value.at && h.value.alt < |forms|
                        && h.value.at + |forms[h.value.alt]| <= |data|
    decreases |data| - from
  {
    if from >= |data| then None
    else match MatchAt(data, forms, from, 0)
      case Some(alt) => Some(Hit(from, alt))
      case None => FindFrom(data, forms, from + 1)
  }

  /**
   * The match found is an occurrence, no alternative occurs anywhere before
   * it, and no earlier alternative occurs at it; without a match, no
   * alternative occurs at or after `from`.
   */
  lemma {:induction false} FindFromLeftmost(data: string, forms: seq<string>, from: nat)
    requires NonEmpty(forms)
    ensures var h := FindFrom(data, forms, from);
            && (h.Some? ==> OccursAt(data, forms[h.value.alt], h.value.at))
            && (h.Some? ==> forall m :: 0 <= m < h.value.alt ==> !OccursAt(data, forms[m], h.value.at))
            && (h.Some? ==> forall j: nat, m :: from <= j < h.value.at && 0 <= m < |forms| ==> !OccursAt(data, forms[m], j))
            && (h.None? ==> forall j: nat, m :: from <= j && 0 <= m < |forms| ==> !OccursAt(data, forms[m], j))
    decreases |data| - from
  {
    if from < |data| && MatchAt(data, forms, from, 0).None? {
      FindFromLeftmost(data, forms, from + 1);
    }
  }

  /**
   * `data.replace(regex, rep)` with a global regex: every match, found left
   * to right and each search resuming after the previous match, is replaced
   * by `rep`.
   */
  function ReplaceFrom(data: string, forms: seq<string>, rep: string, from: nat): string
    requires NonEmpty(forms) && from <= |data|
    decreases |data| - from
  {
    match FindFrom(data, forms, from)
    case None => data[from..]
    case Some(h) => data[from..h.at] + rep + ReplaceFrom(data, forms, rep, h.at + |forms[h.alt]|)
  }

  /**
   * The callback given to `vault.process`: when no reference occurs the note
   * is returned as it is; otherwise every reference is replaced by the text
   * of the first one found, a blank line and the transcript.
   */
  function Splice(data: string, name: string, path: string, transcript: string): string
  {
    var forms := Forms(name, path);
    match FindFrom(data, forms, 0)
    case None => data
    case Some(h) => ReplaceFrom(data, forms, forms[h.alt] + "\n\n" + transcript, 0)
  }

  // ---------------------------------------------------------------------
  // What the replacement keeps
  // ---------------------------------------------------------------------

  /** The text between matches (`gaps`) and the matches themselves, in order. */
  datatype Cut = Cut(gaps: seq<string>, hits: seq<string>)

  function Scan(data: string, forms: seq<string>, from: nat): (c: Cut)
    requires NonEmpty(forms) && from <= |data|
    ensures |c.gaps| == |c.hits| + 1
    decreases |data| - from
  {
    match FindFrom(data, forms, from)
    case None => Cut([data[from..]], [])
    case Some(h) =>
      var rest := Scan(data, forms, h.at + |forms[h.alt]|);
      Cut([data[from..h.at]] + rest.gaps, [forms[h.alt]] + rest.hits)
  }

  /** `gaps[0] + fills[0] + gaps[1] + … + fills[n - 1] + gaps[n]`. */
  function Weave(gaps: seq<string>, fills: seq<string>): string
    requires |gaps| == |fills| + 1
    decreases |fills|
  {
    if |fills| == 0 then gaps[0] else gaps[0] + fills[0] + Weave(gaps[1..], fills[1..])
  }

  function Repeat(s: string, n: nat): (r: seq<string>)
    ensures |r| == n && forall i :: 0 <= i < n ==> r[i] == s
  {
    seq(n, _ => s)
  }

  /** Weaving the matches back between the gaps gives the text: nothing is lost or moved. */
  lemma {:induction false} ScanWeave(data: string, forms: seq<string>, from: nat)
    requires NonEmpty(forms) && from <= |data|
    ensures Weave(Scan(data, forms, from).gaps, Scan(data, forms, from).hits) == data[from..]
    decreases |data| - from
  {
    match FindFrom(data, forms, from)
    case None =>
    case Some(h) =>
      FindFromLeftmost(data, forms, from);
      var m := forms[h.alt];
      var next := h.at + |m|;
      var rest := Scan(data, forms, next);
      ScanWeave(data, forms, next);
      calc {
        Weave(Scan(data, forms, from).gaps, Scan(data, forms, from).hits);
        Weave([data[from..h.at]] + rest.gaps, [m] + rest.hits);
      == { WeaveCons(data[from..h.at], rest.gaps, m, rest.hits); }
        data[from..h.at] + m + data[next..];
      == { assert data[h.at..next] == m; }
        data[from..];
      }
  }

  /** Each match is one of the alternatives, and no alternative occurs inside a gap. */
  lemma {:induction false} ScanParts(data: string, forms: seq<string>, from: nat)
    requires NonEmpty(forms) && from <= |data|
    ensures forall i :: 0 <= i < |Scan(data, forms, from).hits| ==> Scan(data, forms, from).hits[i] in forms
    ensures forall i, m, j: nat :: 0 <= i < |Scan(data, forms, from).gaps| && 0 <= m < |forms| ==>
              !OccursAt(Scan(data, forms, from).gaps[i], forms[m], j)
    decreases |data| - from
  {
    FindFromLeftmost(data, forms, from);
    var c := Scan(data, forms, from);
    match FindFrom(data, forms, from)
    case None =>
      forall m, j: nat | 0 <= m < |forms|
        ensures !OccursAt(data[from..], forms[m], j)
      {
        OccursAtSlice(data, from, |data|, forms[m], j);
        assert data[from..|data|] == data[from..];
      }
    case Some(h) =>
      var next := h.at + |forms[h.alt]|;
      ScanParts(data, forms, next);
      forall m, j: nat | 0 <= m < |forms|
        ensures !OccursAt(data[from..h.at], forms[m], j)
      {
        OccursAtSlice(data, from, h.at, forms[m], j);
      }
      assert c.gaps == [data[from..h.at]] + Scan(data, forms, next).gaps;
  }

  lemma WeaveCons(gap: string, gaps: seq<string>, fill: string, fills: seq<string>)
    requires |gaps| == |fills| + 1
    ensures Weave([gap] + gaps, [fill] + fills) == gap + fill + Weave(gaps, fills)
  {
    assert ([gap] + gaps)[1..] == gaps;
    assert ([fill] + fills)[1..] == fills;
  }

  /** The replacement puts `rep` where each match was and keeps every gap as it is. */
  lemma {:induction false} ReplaceWeave(data: string, forms: seq<string>, rep: string, from: nat)
    requires NonEmpty(forms) && from <= |data|
    ensures var c := Scan(data, forms, from);
            ReplaceFrom(data, forms, rep, from) == Weave(c.gaps, Repeat(rep, |c.hits|))
    decreases |data| - from
  {
    match FindFrom(data, forms, from)
    case None =>
    case Some(h) =>
      var next := h.at + |forms[h.alt]|;
      var rest := Scan(data, forms, next);
      var n := |rest.hits|;
      ReplaceWeave(data, forms, rep, next);
      calc {
        ReplaceFrom(data, forms, rep, from);
        data[from..h.at] + rep + ReplaceFrom(data, forms, rep, next);
        data[from..h.at] + rep + Weave(rest.gaps, Repeat(rep, n));
      == { WeaveCons(data[from..h.at], rest.gaps, rep, Repeat(rep, n)); }
        Weave([data[from..h.at]] + rest.gaps, [rep] + Repeat(rep, n));
      == { assert [rep] + Repeat(rep, n) == Repeat(rep, n + 1); }
        Weave(Scan(data, forms, from).gaps, Repeat(rep, n + 1));
      }
  }

  /**
   * With no reference, the note is unchanged. With one, the note is its gaps
   * in order, each reference replaced by the first reference's text, a blank
   * line and the transcript; there is at least one reference, the gaps hold
   * none, and the gaps with the references woven back are the note.
   */
  lemma SpliceSpec(data: string, name: string, path: string, transcript: string)
    ensures var forms := Forms(name, path);
            var c := Scan(data, forms, 0);
            && ((forall j: nat, m :: 0 <= m < 4 ==> !OccursAt(data, forms[m], j)) ==>
                  Splice(data, name, path, transcript) == data)
            && Weave(c.gaps, c.hits) == data
            && (forall i, m, j: nat :: 0 <= i < |c.gaps| && 0 <= m < 4 ==> !OccursAt(c.gaps[i], forms[m], j))
            && ((exists j: nat, m :: 0 <= m < 4 && OccursAt(data, forms[m], j)) ==>
                  |c.hits| > 0 &&
                  Splice(data, name, path, transcript) ==
                  Weave(c.gaps, Repeat(c.hits[0] + "\n\n" + transcript, |c.hits|)))
  {
    var forms := Forms(name, path);
    FindFromLeftmost(data, forms, 0);
    ScanWeave(data, forms, 0);
    assert data[0..] == data;
    ScanParts(data, forms, 0);
    match FindFrom(data, forms, 0)
    case None =>
    case Some(h) =>
      ReplaceWeave(data, forms, forms[h.alt] + "\n\n" + transcript, 0);
  }

  // ---------------------------------------------------------------------
  // The loop over linked files
  // ---------------------------------------------------------------------

  /**
   * A link of the active note: whether it resolves to a file, the file's name
   * and path, and the transcription service's answer for it (`None` when the
   * request fails, which ends the command).
   */
  datatype Link = Link(isFile: bool, name: string, path: string, transcript: Option<string>)

  /** The note after the links so far, and whether a failed request stopped the command. */
  datatype Outcome = Outcome(doc: string, stopped: bool)

  /** One iteration: skip what is not a file, stop on a failed request, splice otherwise. */
  function Step(doc: string, link: Link): Outcome {
    if !link.isFile then Outcome(doc, false)
    else match link.transcript
      case None => Outcome(doc, true)
      case Some(t) => Outcome(Splice(doc, link.name, link.path, t), false)
  }

  function Run(data: string, links: seq<Link>): Outcome
    decreases |links|
  {
    if |links| == 0 then Outcome(data, false)
    else
      var before := Run(data, links[..|links| - 1]);
      if before.stopped then before else Step(before.doc, links[|links| - 1])
  }

  /** Once a request has failed, later links change nothing. */
  lemma {:induction false} RunStopped(data: string, links: seq<Link>, n: nat)
    requires n <= |links| && Run(data, links[..n]).stopped
    ensures Run(data, links) == Run(data, links[..n])
    decreases |links|
  {
    if n < |links| {
      var init := links[..|links| - 1];
      assert init[..n] == links[..n];
      RunStopped(data, init, n);
    } else {
      assert links[..n] == links;
    }
  }

  /** The splices compose: the links after a prefix work on the note the prefix left. */
  lemma {:induction false} RunAppend(data: string, first: seq<Link>, second: seq<Link>)
    requires !Run(data, first).stopped
    ensures Run(data, first + second) == Run(Run(data, first).doc, second)
    decreases |second|
  {
    if |second| == 0 {
      assert first + second == first;
    } else {
      var init := second[..|second| - 1];
      assert (first + second)[..|first + second| - 1] == first + init;
      RunAppend(data, first, init);
    }
  }

  /**
   * The "Transcribe" command's loop over the active note's links: each file
   * is transcribed and spliced into the note as it stands after the earlier
   * ones; a failed request ends the loop.
   */
  method TranscribeLinks(note: Note, links: seq<Link>) returns (stopped: bool)
    modifies note
    ensures note.data == Run(old(note.data), links).doc
    ensures stopped == Run(old(note.data), links).stopped
  {
    ghost var start := note.data;
    stopped := false;
    var i := 0;
    while i < |links| && !stopped
      invariant 0 <= i <= |links|
      invariant Run(start, links[..i]) == Outcome(note.data, stopped)
    {
      var link := links[i];
      assert links[..i + 1][..i] == links[..i];
      if link.isFile {
        match link.transcript
        case None =>
          stopped := true;
        case Some(t) =>
          note.Process(data => Splice(data, link.name, link.path, t));
      }
      i := i + 1;
    }
    if stopped {
      RunStopped(start, links, i);
    } else {
      assert links[..i] == links;
    }
  }
}
