/** `createFragmentShader` of src/components/Earth/shaders/globeShader.js: the GLSL text built
    from the texture list, the segment table and the slot count. Integers are printed in
    decimal; the printing of the real band bounds is a parameter `format`. Parsers for the
    generated lines show what the text holds. */
module GlobeShader {
  import opened Wrappers
  import opened Segments

  // ---- Decimal numerals ----

  predicate IsDigit(c: char)
  {
    '0' <= c <= '9'
  }

  predicate AllDigits(s: string)
  {
    forall i :: 0 <= i < |s| ==> IsDigit(s[i])
  }

  /** `${n}` for a non-negative integer. */
  function NatToString(n: nat): (s: string)
    ensures |s| >= 1 && AllDigits(s)
  {
    if n < 10 then ["0123456789"[n]]
    else NatToString(n / 10) + ["0123456789"[n % 10]]
  }

  function ParseNat(s: string): nat
    requires AllDigits(s)
  {
    if |s| == 0 then 0
    else 10 * ParseNat(s[..|s| - 1]) + (s[|s| - 1] as int - '0' as int)
  }

  lemma {:induction false} ParseNatToString(n: nat)
    ensures ParseNat(NatToString(n)) == n
  {
    var s := NatToString(n);
    if n >= 10 {
      assert s[..|s| - 1] == NatToString(n / 10);
      ParseNatToString(n / 10);
    }
  }

  /** Number of leading digits. */
  function LeadingDigits(s: string): (k: nat)
    ensures k <= |s| && AllDigits(s[..k])
    ensures k < |s| ==> !IsDigit(s[k])
  {
    if |s| == 0 || !IsDigit(s[0]) then 0
    else
      var k := 1 + LeadingDigits(s[1..]);
      assert s[..k] == [s[0]] + s[1..][..k - 1];
      k
  }

  lemma {:induction false} LeadingDigitsOfNumeral(d: string, rest: string)
    requires AllDigits(d)
    requires |rest| == 0 || !IsDigit(rest[0])
    ensures LeadingDigits(d + rest) == |d|
  {
    if |d| > 0 {
      assert (d + rest)[1..] == d[1..] + rest;
      LeadingDigitsOfNumeral(d[1..], rest);
    }
  }

  // ---- Array.prototype.join and its inverse ----

  /** `parts.join(sep)` */
  function Join(parts: seq<string>, sep: string): string
  {
    if |parts| == 0 then ""
    else if |parts| == 1 then parts[0]
    else parts[0] + sep + Join(parts[1..], sep)
  }

  /** Cut `s` at every `c`. */
  function Split(s: string, c: char): (parts: seq<string>)
    ensures |parts| >= 1
  {
    if |s| == 0 then [""]
    else if s[0] == c then [""] + Split(s[1..], c)
    else
      var r := Split(s[1..], c);
      [[s[0]] + r[0]] + r[1..]
  }

  lemma {:induction false} SplitWithout(p: string, c: char)
    requires c !in p
    ensures Split(p, c) == [p]
  {
    if |p| > 0 {
      SplitWithout(p[1..], c);
      assert [p[0]] + p[1..] == p;
    }
  }

  lemma {:induction false} SplitFirst(p: string, rest: string, c: char)
    requires c !in p
    ensures Split(p + [c] + rest, c) == [p] + Split(rest, c)
  {
    if |p| == 0 {
      assert p + [c] + rest == [c] + rest;
      assert ([c] + rest)[1..] == rest;
    } else {
      assert (p + [c] + rest)[1..] == p[1..] + [c] + rest;
      SplitFirst(p[1..], rest, c);
      assert [p[0]] + p[1..] == p;
    }
  }

  /** Lines joined with a character none of them holds can be cut apart again. */
  lemma {:induction false} SplitJoin(parts: seq<string>, c: char)
    requires |parts| >= 1
    requires forall i :: 0 <= i < |parts| ==> c !in parts[i]
    ensures Split(Join(parts, [c]), c) == parts
  {
    if |parts| == 1 {
      SplitWithout(parts[0], c);
    } else {
      SplitJoin(parts[1..], c);
      SplitFirst(parts[0], Join(parts[1..], [c]), c);
      assert parts == [parts[0]] + parts[1..];
    }
  }

  /** Joining one more part appends the separator and the part: blocks keep their order. */
  lemma {:induction false} JoinSnoc(parts: seq<string>, sep: string, last: string)
    requires |parts| >= 1
    ensures Join(parts + [last], sep) == Join(parts, sep) + sep + last
  {
    if |parts| == 1 {
      assert (parts + [last])[1..] == [last];
    } else {
      assert (parts + [last])[1..] == parts[1..] + [last];
      JoinSnoc(parts[1..], sep, last);
    }
  }

  /** `s` with `pre` before and `post` after: the text in between. */
  function Between(s: string, pre: string, post: string): (r: Option<string>)
    ensures r.Some? ==> s == pre + r.value + post
  {
    if |pre| + |post| <= |s| && s[..|pre|] == pre && s[|s| - |post|..] == post then
      var mid := s[|pre|..|s| - |post|];
      assert s == s[..|pre|] + mid + s[|s| - |post|..];
      Some(mid)
    else None
  }

  lemma BetweenOf(pre: string, mid: string, post: string)
    ensures Between(pre + mid + post, pre, post) == Some(mid)
  {
    var s := pre + mid + post;
    assert s[..|pre|] == pre;
    assert s[|s| - |post|..] == post;
    assert s[|pre|..|s| - |post|] == mid;
  }

  // ---- The generated text ----

  /** One declaration per texture: `uniform sampler2D videoTexture${idx};` */
  function UniformLine(idx: nat): string
  {
    "uniform sampler2D videoTexture" + NatToString(idx) + ";"
  }

  function Declarations(count: nat): string
  {
    Join(seq(count, idx requires 0 <= idx < count => UniformLine(idx)), "\n")
  }

  /** `${n}.0` */
  function FloatLiteral(n: nat): string
  {
    NatToString(n) + ".0"
  }

  const TextureCaseHead := ": color = texture2D(videoTexture"
  const TextureCaseTail := ", localUv); break;"
  const EmptyCaseTail := ": color = vec4(0.0); break;"

  /** One `case` of a segment's switch. */
  function CaseLine(i: nat, video: Slot): string
  {
    "case " + NatToString(i) + CaseTail(video)
  }

  /** What a `case` does: sample the slot's texture, or write `vec4(0.0)` when the slot has
      none (`textureIndex` is not `>= 0`). */
  function CaseTail(video: Slot): string
  {
    if TextureIndex(video) >= 0 then TextureCaseHead + NatToString(TextureIndex(video)) + TextureCaseTail
    else EmptyCaseTail
  }

  function CaseLines(videos: seq<Slot>): seq<string>
  {
    seq(|videos|, i requires 0 <= i < |videos| => CaseLine(i, videos[i]))
  }

  /** The conditional block of one segment. */
  function Block(segment: Segment, subsectionsPerSegment: nat, format: real -> string): string
  {
    "\n            if (vUv.y > " + format(segment.minY) + " && vUv.y <= " + format(segment.maxY) + ") {\n"
    + "                float segmentHeight = " + format(segment.maxY) + " - " + format(segment.minY) + ";\n"
    + "                int subsectionIndex = int(floor(vUv.x / subsectionWidth));\n"
    + "                vec2 localUv;\n"
    + "\n"
    + "                localUv.x = (vUv.x - (subsectionWidth * float(subsectionIndex))) * " + FloatLiteral(subsectionsPerSegment) + ";\n"
    + "                localUv.y = (vUv.y - " + format(segment.minY) + ") / segmentHeight;\n"
    + "\n"
    + "                switch(subsectionIndex) {\n"
    + "                    " + Join(CaseLines(segment.videos), "\n") + "\n"
    + "                }\n"
    + "            }\n"
    + "        "
  }

  function Blocks(segments: seq<Segment>, subsectionsPerSegment: nat, format: real -> string): seq<string>
  {
    seq(|segments|, i requires 0 <= i < |segments| => Block(segments[i], subsectionsPerSegment, format))
  }

  /** The text before the declarations. */
  const Header := "\n    varying vec2 vUv;\n    "

  /** The whole fragment shader: the header, the declarations, a blank line and `main`. */
  function CreateFragmentShader<T>(videoTextures: seq<T>, segments: seq<Segment>, subsectionsPerSegment: nat,
                                   format: real -> string): string
  {
    Header + Declarations(|videoTextures|) + "\n\n" + MainFunction(segments, subsectionsPerSegment, format)
  }

  /** `main`: the slot width, then the blocks of the segments joined by ` else `. */
  function MainFunction(segments: seq<Segment>, subsectionsPerSegment: nat, format: real -> string): string
  {
    "    void main() {\n"
    + "        vec4 color = vec4(0.0);\n"
    + "        float subsectionWidth = 1.0 / " + FloatLiteral(subsectionsPerSegment) + ";\n"
    + "\n"
    + "        " + Join(Blocks(segments, subsectionsPerSegment, format), " else ") + "\n"
    + "        \n"
    + "        gl_FragColor = color;\n"
    + "    }\n"
  }

  // ---- Reading the text back ----

  function ParseUniformLine(line: string): Option<nat>
  {
    match Between(line, "uniform sampler2D videoTexture", ";")
    case Some(digits) => if |digits| > 0 && AllDigits(digits) then Some(ParseNat(digits)) else None
    case None => None
  }

  /** The lines of `lines` before the first empty one. */
  function TakeUntilEmpty(lines: seq<string>): (r: seq<string>)
    ensures |r| <= |lines|
  {
    if |lines| == 0 || lines[0] == "" then [] else [lines[0]] + TakeUntilEmpty(lines[1..])
  }

  /** The texture indices declared by a run of declaration lines, in order. */
  function ParseUniformLines(lines: seq<string>): Option<seq<nat>>
  {
    if |lines| == 0 then Some([])
    else
      match (ParseUniformLine(lines[0]), ParseUniformLines(lines[1..]))
      case (Some(idx), Some(rest)) => Some([idx] + rest)
      case _ => None
  }

  /** The texture indices a whole shader declares: the lines after the header up to the first
      blank line. */
  function ParseDeclaredTextures(text: string): Option<seq<nat>>
  {
    match Between(text, Header, "")
    case None => None
    case Some(rest) => ParseUniformLines(TakeUntilEmpty(Split(rest, '\n')))
  }

  /** `${n}.0` read back. */
  function ParseFloatLiteral(s: string): Option<nat>
  {
    match Between(s, "", ".0")
    case Some(digits) => if |digits| > 0 && AllDigits(digits) then Some(ParseNat(digits)) else None
    case None => None
  }

  /** The slot index and texture index of a `case` line; -1 for a line that writes `vec4(0.0)`. */
  function ParseCaseLine(line: string): Option<(nat, int)>
  {
    match Between(line, "case ", "")
    case None => None
    case Some(rest) =>
      var k := LeadingDigits(rest);
      if k == 0 then None
      else
        match ParseCaseTail(rest[k..])
        case Some(t) => Some((ParseNat(rest[..k]), t))
        case None => None
  }

  function ParseCaseTail(tail: string): Option<int>
  {
    if tail == EmptyCaseTail then Some(-1 as int)
    else
      match Between(tail, TextureCaseHead, TextureCaseTail)
      case Some(digits) => if |digits| > 0 && AllDigits(digits) then Some(ParseNat(digits) as int) else None
      case None => None
  }

  lemma UniformLineRoundTrip(idx: nat)
    ensures ParseUniformLine(UniformLine(idx)) == Some(idx)
  {
    BetweenOf("uniform sampler2D videoTexture", NatToString(idx), ";");
    ParseNatToString(idx);
  }

  lemma CaseHeadRoundTrip(i: nat, tail: string)
    requires |tail| > 0 && !IsDigit(tail[0]) && ParseCaseTail(tail).Some?
    ensures ParseCaseLine("case " + NatToString(i) + tail) == Some((i, ParseCaseTail(tail).value))
  {
    var d := NatToString(i);
    assert "case " + d + tail == "case " + (d + tail) + "";
    BetweenOf("case ", d + tail, "");
    LeadingDigitsOfNumeral(d, tail);
    assert (d + tail)[..|d|] == d && (d + tail)[|d|..] == tail;
    ParseNatToString(i);
  }

  lemma CaseTailRoundTrip(video: Slot)
    ensures ParseCaseTail(CaseTail(video)) == Some(TextureIndex(video))
  {
    var t := TextureIndex(video);
    if t >= 0 {
      var tail := CaseTail(video);
      assert tail[10] == 't' && EmptyCaseTail[10] == 'v';
      BetweenOf(TextureCaseHead, NatToString(t), TextureCaseTail);
      ParseNatToString(t);
    }
  }

  lemma CaseLineRoundTrip(i: nat, video: Slot)
    ensures ParseCaseLine(CaseLine(i, video)) == Some((i, TextureIndex(video)))
  {
    CaseTailRoundTrip(video);
    var tail := CaseTail(video);
    assert tail[0] == ':';
    CaseHeadRoundTrip(i, tail);
  }

  lemma NumeralHasNoNewline(n: nat)
    ensures '\n' !in NatToString(n)
  {
    var s := NatToString(n);
    assert forall i :: 0 <= i < |s| ==> s[i] != '\n';
  }

  /** The declaration text holds exactly one line per texture, line `idx` declaring
      `videoTexture<idx>`. */
  lemma DeclarationsRoundTrip(count: nat)
    requires count >= 1
    ensures var lines := Split(Declarations(count), '\n');
      && |lines| == count
      && forall idx :: 0 <= idx < count ==> ParseUniformLine(lines[idx]) == Some(idx)
  {
    var parts := seq(count, idx requires 0 <= idx < count => UniformLine(idx));
    forall idx | 0 <= idx < count ensures '\n' !in parts[idx] {
      NumeralHasNoNewline(idx);
    }
    SplitJoin(parts, '\n');
    forall idx | 0 <= idx < count ensures ParseUniformLine(parts[idx]) == Some(idx) {
      UniformLineRoundTrip(idx);
    }
  }

  /** A segment's switch holds exactly one `case` per slot, in slot order: case `i` samples
      `videoTexture<t>` for a slot with texture index `t >= 0` and writes `vec4(0.0)` for an
      empty slot. */
  lemma CasesRoundTrip(videos: seq<Slot>)
    requires |videos| >= 1
    ensures var lines := Split(Join(CaseLines(videos), "\n"), '\n');
      && |lines| == |videos|
      && forall i :: 0 <= i < |videos| ==> ParseCaseLine(lines[i]) == Some((i, TextureIndex(videos[i])))
  {
    var parts := CaseLines(videos);
    forall i | 0 <= i < |videos| ensures '\n' !in parts[i] {
      NumeralHasNoNewline(i);
      if TextureIndex(videos[i]) >= 0 {
        NumeralHasNoNewline(TextureIndex(videos[i]));
      }
    }
    SplitJoin(parts, '\n');
    forall i | 0 <= i < |videos| ensures ParseCaseLine(parts[i]) == Some((i, TextureIndex(videos[i]))) {
      CaseLineRoundTrip(i, videos[i]);
    }
  }

  /** The slot count is written as a float literal that reads back as the count. */
  lemma FloatLiteralRoundTrip(n: nat)
    ensures ParseFloatLiteral(FloatLiteral(n)) == Some(n)
  {
    BetweenOf("", NatToString(n), ".0");
    assert "" + NatToString(n) + ".0" == FloatLiteral(n);
    ParseNatToString(n);
  }

  /** Lines joined by `c` and followed by `c` split into those lines, then whatever follows. */
  lemma {:induction false} SplitJoinThen(parts: seq<string>, c: char, rest: string)
    requires |parts| >= 1
    requires forall i :: 0 <= i < |parts| ==> c !in parts[i]
    ensures Split(Join(parts, [c]) + [c] + rest, c) == parts + Split(rest, c)
  {
    if |parts| == 1 {
      SplitFirst(parts[0], rest, c);
    } else {
      SplitJoinThen(parts[1..], c, rest);
      assert Join(parts, [c]) + [c] + rest == parts[0] + [c] + (Join(parts[1..], [c]) + [c] + rest);
      SplitFirst(parts[0], Join(parts[1..], [c]) + [c] + rest, c);
      assert parts == [parts[0]] + parts[1..];
    }
  }

  lemma {:induction false} TakeUntilEmptyPrefix(parts: seq<string>, more: seq<string>)
    requires forall i :: 0 <= i < |parts| ==> parts[i] != ""
    ensures TakeUntilEmpty(parts + [""] + more) == parts
  {
    if |parts| > 0 {
      assert (parts + [""] + more)[1..] == parts[1..] + [""] + more;
      TakeUntilEmptyPrefix(parts[1..], more);
      assert parts == [parts[0]] + parts[1..];
    }
  }

  lemma {:induction false} ParseUniformLinesOf(lines: seq<string>, indices: seq<nat>)
    requires |lines| == |indices|
    requires forall i :: 0 <= i < |lines| ==> ParseUniformLine(lines[i]) == Some(indices[i])
    ensures ParseUniformLines(lines) == Some(indices)
  {
    if |lines| > 0 {
      ParseUniformLinesOf(lines[1..], indices[1..]);
      assert indices == [indices[0]] + indices[1..];
    }
  }

  /** The lines before the first blank line after the declarations are the declarations. */
  lemma DeclarationLines(count: nat, main: string)
    ensures TakeUntilEmpty(Split(Declarations(count) + "\n\n" + main, '\n'))
         == seq(count, idx requires 0 <= idx < count => UniformLine(idx))
  {
    var rest := Declarations(count) + "\n\n" + main;
    var lines := seq(count, idx requires 0 <= idx < count => UniformLine(idx));
    if count == 0 {
      assert rest == ['\n'] + ("\n" + main);
    } else {
      forall idx | 0 <= idx < count ensures '\n' !in lines[idx] && lines[idx] != "" {
        NumeralHasNoNewline(idx);
      }
      assert rest == Join(lines, "\n") + ['\n'] + ("\n" + main);
      SplitJoinThen(lines, '\n', "\n" + main);
      assert ("\n" + main)[1..] == main;
      assert Split("\n" + main, '\n') == [""] + Split(main, '\n');
      TakeUntilEmptyPrefix(lines, Split(main, '\n'));
      assert lines + Split("\n" + main, '\n') == lines + [""] + Split(main, '\n');
    }
  }

  lemma DeclaredTexturesOf(count: nat, main: string)
    ensures ParseDeclaredTextures(Header + Declarations(count) + "\n\n" + main)
         == Some(seq(count, i requires 0 <= i < count => i))
  {
    var rest := Declarations(count) + "\n\n" + main;
    assert Header + Declarations(count) + "\n\n" + main == Header + rest + "";
    BetweenOf(Header, rest, "");
    DeclarationLines(count, main);
    var lines := seq(count, idx requires 0 <= idx < count => UniformLine(idx));
    var indices := seq(count, i requires 0 <= i < count => i);
    forall i | 0 <= i < count ensures ParseUniformLine(lines[i]) == Some(indices[i]) {
      UniformLineRoundTrip(i);
    }
    ParseUniformLinesOf(lines, indices);
  }

  /** The shader, read from its start, declares `videoTexture0` up to `videoTexture<n-1>` for
      the `n` textures, one per line and in order, and nothing else before its blank line. */
  lemma ShaderDeclaresTextures<T>(videoTextures: seq<T>, segments: seq<Segment>, n: nat, format: real -> string)
    ensures ParseDeclaredTextures(CreateFragmentShader(videoTextures, segments, n, format))
         == Some(seq(|videoTextures|, i requires 0 <= i < |videoTextures| => i))
  {
    DeclaredTexturesOf(|videoTextures|, MainFunction(segments, n, format));
  }

  /** The text depends on the texture list only through its length. */
  lemma DependsOnTextureCountOnly<T, U>(a: seq<T>, b: seq<U>, segments: seq<Segment>, n: nat, format: real -> string)
    requires |a| == |b|
    ensures CreateFragmentShader(a, segments, n, format) == CreateFragmentShader(b, segments, n, format)
  {
  }

  /** Each further segment appends ` else ` and its own block after the blocks of the
      segments before it. */
  lemma BlocksInSegmentOrder(segments: seq<Segment>, last: Segment, n: nat, format: real -> string)
    requires |segments| >= 1
    ensures Join(Blocks(segments + [last], n, format), " else ")
         == Join(Blocks(segments, n, format), " else ") + " else " + Block(last, n, format)
  {
    assert Blocks(segments + [last], n, format) == Blocks(segments, n, format) + [Block(last, n, format)];
    JoinSnoc(Blocks(segments, n, format), " else ", Block(last, n, format));
  }

  // ---- What the generated code computes ----

  /** The texture index the emitted code samples at `(x, y)`, or -1 for `vec4(0.0)`: the
      first block whose condition `vUv.y > minY && vUv.y <= maxY` holds runs its switch on
      `int(floor(vUv.x / (1.0 / n.0)))`; with no block or no matching case the color stays
      `vec4(0.0)`. */
  function ShaderSample(segments: seq<Segment>, n: nat, x: real, y: real): int
    requires n > 0
  {
    if |segments| == 0 then -1
    else if y > segments[0].minY && y <= segments[0].maxY then
      var c := (x / (1.0 / (n as real))).Floor;
      if 0 <= c < |segments[0].videos| then TextureIndex(segments[0].videos[c]) else -1
    else ShaderSample(segments[1..], n, x, y)
  }

  /** With 5 slots per segment the shader and the pointer hit test agree: the shader samples
      exactly the texture of the slot the hit test finds, and nothing where it finds none. */
  lemma {:induction false} ShaderAgreesWithHitTest(segments: seq<Segment>, x: real, y: real)
    ensures ShaderSample(segments, SubsectionsPerSegment, x, y) ==
      match FindSegment(segments, y)
      case None => -1
      case Some(i) =>
        match SlotAt(segments[i], x)
        case None => -1
        case Some(slot) => TextureIndex(slot)
  {
    assert x / (1.0 / 5.0) == x * 5.0;
    if |segments| > 0 && !InBand(segments[0], y) {
      ShaderAgreesWithHitTest(segments[1..], x, y);
    }
  }
}
