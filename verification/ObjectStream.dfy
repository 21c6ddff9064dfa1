/** The `git cat-file --batch` stream that deployment/repository_snapshot.py reads.

    Bytes are characters.  SHA-1 is a parameter, so the results hold for every hash function. */
module ObjectStream {
  import opened Prelude
  import opened Decimals

  datatype GitObject = GitObject(id: string, kind: string, content: string)

  const MAX_OBJECT_BYTES: int := 2_000_000_000
  const MAX_TOTAL_BYTES: int := 4_000_000_000
  const CHUNK: nat := 1_048_576

  predicate ValidKind(kind: string) {
    kind in {"blob", "tree", "commit", "tag"}
  }

  /** The text that Git hashes and that a loose object holds. */
  function Loose(kind: string, content: string): string {
    kind + " " + Decimal(|content|) + "\0" + content
  }

  predicate Genuine(sha1: string -> string, o: GitObject) {
    ValidKind(o.kind) && |o.content| <= MAX_OBJECT_BYTES && sha1(Loose(o.kind, o.content)) == o.id
  }

  // ----- Lines and fields ----------------------------------------------------------------------------

  /** The first position of `c`, or the length if there is none. */
  function Find(s: string, c: char): (i: nat)
    ensures i <= |s| && (i < |s| ==> s[i] == c) && forall k :: 0 <= k < i ==> s[k] != c
  {
    if s == [] || s[0] == c then 0 else 1 + Find(s[1..], c)
  }

  lemma FindIs(s: string, c: char, i: nat)
    requires i < |s| && s[i] == c && forall k :: 0 <= k < i ==> s[k] != c
    ensures Find(s, c) == i
  {
  }

  /** A batch header: `id kind size`. */
  datatype Header = Header(id: string, kind: string, size: int)

  datatype Fields = Fields(id: string, kind: string, text: string)

  function SplitHeader(line: string): Option<Fields> {
    var a := Find(line, ' ');
    if a == |line| then None
    else
      var rest := line[a + 1..];
      var b := Find(rest, ' ');
      if b == |rest| then None else Some(Fields(line[..a], rest[..b], rest[b + 1..]))
  }

  function ParseHeader(line: string): Option<Header> {
    var fields := SplitHeader(line);
    if fields.None? then None
    else
      var size := PyInt(fields.value.text);
      if size.None? then None else Some(Header(fields.value.id, fields.value.kind, size.value))
  }

  /** One object from the front of the stream, with the number of bytes it takes. */
  datatype Parsed = Parsed(item: GitObject, length: nat)

  predicate Allowed(h: Header, id: string, total: int) {
    h.id == id && ValidKind(h.kind) && 0 <= h.size <= MAX_OBJECT_BYTES && total + h.size <= MAX_TOTAL_BYTES
  }

  function ParseBody(sha1: string -> string, h: Header, body: string): Option<GitObject>
    requires h.size >= 0
  {
    if |body| <= h.size || body[h.size] != '\n' then None
    else
      var o := GitObject(h.id, h.kind, body[..h.size]);
      if Genuine(sha1, o) then Some(o) else None
  }

  /** The reader of header lines is a parameter of what follows it. */
  type HeaderParser = string -> Option<Header>

  function ParseWith(header: HeaderParser, sha1: string -> string, data: string, id: string, total: int): Option<Parsed> {
    var nl := Find(data, '\n');
    var h := header(data[..nl]);
    if nl == |data| || h.None? || !Allowed(h.value, id, total) then None
    else
      var o := ParseBody(sha1, h.value, data[nl + 1..]);
      if o.None? then None else Some(Parsed(o.value, nl + 1 + h.value.size + 1))
  }

  function ParseObject(sha1: string -> string, data: string, id: string, total: int): Option<Parsed> {
    ParseWith(ParseHeader, sha1, data, id, total)
  }

  // ----- What an accepted stream is --------------------------------------------------------------------

  /** A header line with some spelling of the size. */
  function Line(id: string, kind: string, text: string): string {
    id + (" " + (kind + (" " + text)))
  }

  /** A frame: the header line, the content and a newline. */
  function Frame(o: GitObject, text: string): string {
    Line(o.id, o.kind, text) + ("\n" + (o.content + "\n"))
  }

  predicate FrameText(o: GitObject, text: string) {
    PyInt(text) == Some(|o.content|) && '\n' !in Line(o.id, o.kind, text) && ' ' !in o.id && ' ' !in o.kind
  }

  lemma SplitAt(s: string, i: nat)
    requires i < |s|
    ensures s == s[..i] + ([s[i]] + s[i + 1..])
  {
  }

  lemma {:induction false} FirstField(s: string)
    requires Find(s, ' ') < |s|
    ensures var a := Find(s, ' '); s == s[..a] + (" " + s[a + 1..]) && ' ' !in s[..a]
  {
    SplitAt(s, Find(s, ' '));
  }

  lemma {:induction false} HeaderIsFields(line: string)
    requires SplitHeader(line).Some?
    ensures var f := SplitHeader(line).value; line == Line(f.id, f.kind, f.text) && ' ' !in f.id && ' ' !in f.kind
  {
    FirstField(line);
    FirstField(line[Find(line, ' ') + 1..]);
  }

  lemma {:induction false} HeaderOfFields(id: string, kind: string, text: string)
    requires ' ' !in id && ' ' !in kind
    ensures SplitHeader(Line(id, kind, text)) == Some(Fields(id, kind, text))
  {
    var rest := kind + (" " + text);
    var line := id + (" " + rest);
    FindIs(line, ' ', |id|);
    assert line[..|id|] == id && line[|id| + 1..] == rest;
    FindIs(rest, ' ', |kind|);
    assert rest[..|kind|] == kind && rest[|kind| + 1..] == text;
  }

  lemma {:induction false} BodyIsContent(sha1: string -> string, h: Header, body: string)
    requires h.size >= 0 && ParseBody(sha1, h, body).Some?
    ensures var o := ParseBody(sha1, h, body).value;
            && o.id == h.id && o.kind == h.kind && |o.content| == h.size && Genuine(sha1, o)
            && |body| > h.size && body[..h.size + 1] == o.content + "\n"
  {
    SplitAt(body, h.size);
  }

  lemma {:induction false} LineIsHeader(line: string) returns (text: string)
    requires ParseHeader(line).Some?
    ensures var h := ParseHeader(line).value;
            line == Line(h.id, h.kind, text) && PyInt(text) == Some(h.size) && ' ' !in h.id && ' ' !in h.kind
  {
    HeaderIsFields(line);
    text := SplitHeader(line).value.text;
  }

  lemma {:induction false} JoinLine(data: string, nl: nat, n: nat)
    requires nl < |data| && data[nl] == '\n' && nl + 1 + n <= |data|
    ensures data[..nl + 1 + n] == data[..nl] + ("\n" + data[nl + 1..][..n])
  {
  }

  /** A header line, the content and a newline, for any reader of header lines. */
  lemma {:induction false} ParsedIsLines(header: HeaderParser, sha1: string -> string, data: string, id: string, total: int)
    returns (line: string, h: Header)
    requires ParseWith(header, sha1, data, id, total).Some?
    ensures header(line) == Some(h) && Allowed(h, id, total) && '\n' !in line
    ensures var p := ParseWith(header, sha1, data, id, total).value;
            && p.item.id == h.id && p.item.kind == h.kind && |p.item.content| == h.size && Genuine(sha1, p.item)
            && p.length <= |data| && data[..p.length] == line + ("\n" + (p.item.content + "\n"))
  {
    var nl := Find(data, '\n');
    line := data[..nl];
    h := header(line).value;
    BodyIsContent(sha1, h, data[nl + 1..]);
    JoinLine(data, nl, h.size + 1);
  }

  /** What is consumed is exactly one correctly framed, correctly hashed object. */
  lemma {:induction false} ParsedIsFrame(sha1: string -> string, data: string, id: string, total: int)
    returns (text: string)
    requires ParseObject(sha1, data, id, total).Some?
    ensures var p := ParseObject(sha1, data, id, total).value;
            && p.item.id == id && Genuine(sha1, p.item) && total + |p.item.content| <= MAX_TOTAL_BYTES
            && p.length <= |data| && FrameText(p.item, text) && data[..p.length] == Frame(p.item, text)
  {
    var line, h := ParsedIsLines(ParseHeader, sha1, data, id, total);
    text := LineIsHeader(line);
  }

  lemma FrameLayout(line: string, content: string, rest: string, data: string)
    requires '\n' !in line && data == line + ("\n" + (content + "\n")) + rest
    ensures Find(data, '\n') == |line| && |line| < |data| && data[..|line|] == line
    ensures var body := data[|line| + 1..];
            |body| > |content| && body[|content|] == '\n' && body[..|content|] == content
  {
    assert data[..|line|] == line && data[|line|] == '\n';
    FindIs(data, '\n', |line|);
    var body := data[|line| + 1..];
    assert body == (content + "\n") + rest;
  }

  lemma {:induction false} LinesAreParsed(
      header: HeaderParser, sha1: string -> string, line: string, h: Header, o: GitObject, rest: string, total: int)
    requires '\n' !in line && header(line) == Some(h) && Allowed(h, o.id, total)
    requires h == Header(o.id, o.kind, |o.content|) && Genuine(sha1, o)
    ensures var frame := line + ("\n" + (o.content + "\n"));
            ParseWith(header, sha1, frame + rest, o.id, total) == Some(Parsed(o, |frame|))
  {
    var data := line + ("\n" + (o.content + "\n")) + rest;
    FrameLayout(line, o.content, rest, data);
    ContentIsBody(sha1, o, data[|line| + 1..]);
  }

  lemma {:induction false} HeaderIsLine(id: string, kind: string, text: string, size: int)
    requires ' ' !in id && ' ' !in kind && PyInt(text) == Some(size)
    ensures ParseHeader(Line(id, kind, text)) == Some(Header(id, kind, size))
  {
    HeaderOfFields(id, kind, text);
  }

  lemma {:induction false} ContentIsBody(sha1: string -> string, o: GitObject, body: string)
    requires Genuine(sha1, o) && |body| > |o.content| && body[|o.content|] == '\n' && body[..|o.content|] == o.content
    ensures ParseBody(sha1, Header(o.id, o.kind, |o.content|), body) == Some(o)
  {
  }

  lemma {:induction false} LineIsParsed(sha1: string -> string, line: string, o: GitObject, rest: string, total: int)
    requires '\n' !in line && ParseHeader(line) == Some(Header(o.id, o.kind, |o.content|))
    requires Genuine(sha1, o) && total + |o.content| <= MAX_TOTAL_BYTES
    ensures var frame := line + ("\n" + (o.content + "\n"));
            ParseObject(sha1, frame + rest, o.id, total) == Some(Parsed(o, |frame|))
  {
    LinesAreParsed(ParseHeader, sha1, line, Header(o.id, o.kind, |o.content|), o, rest, total);
  }

  /** And every such frame is accepted, with nothing of what follows consumed. */
  lemma {:induction false} FrameIsParsed(sha1: string -> string, o: GitObject, text: string, rest: string, total: int)
    requires FrameText(o, text) && Genuine(sha1, o) && total + |o.content| <= MAX_TOTAL_BYTES
    ensures ParseObject(sha1, Frame(o, text) + rest, o.id, total) == Some(Parsed(o, |Frame(o, text)|))
  {
    HeaderIsLine(o.id, o.kind, text, |o.content|);
    LineIsParsed(sha1, Line(o.id, o.kind, text), o, rest, total);
  }

  // ----- The whole batch -----------------------------------------------------------------------------

  /** The objects of a batch and how many bytes they took. */
  datatype Batch = Batch(objects: seq<GitObject>, length: nat)

  /** One object per requested identifier, in that order, each parsed where the previous one ended. */
  function ParseBatch(parse: Parser, data: string, ids: seq<string>, total: int): Option<Batch>
    decreases |ids|
  {
    if ids == [] then Some(Batch([], 0))
    else
      var first := parse(data, ids[0], total);
      if first.None? || first.value.length > |data| then None
      else
        var Parsed(o, n) := first.value;
        var rest := ParseBatch(parse, data[n..], ids[1..], total + |o.content|);
        if rest.None? then None else Some(Batch([o] + rest.value.objects, n + rest.value.length))
  }

  type Parser = (string, string, int) -> Option<Parsed>
  type Framing = (GitObject, string) -> bool

  /** Whatever the parser accepts is a frame of the requested object, within the limit. */
  ghost predicate Sound(parse: Parser, framing: Framing) {
    forall data, id, total {:trigger parse(data, id, total)} :: parse(data, id, total).Some? ==>
      var p := parse(data, id, total).value;
      && p.length <= |data| && p.item.id == id && total + |p.item.content| <= MAX_TOTAL_BYTES
      && framing(p.item, data[..p.length])
  }

  /** The parser accepts every frame within the limit, and reads no further. */
  ghost predicate Complete(parse: Parser, framing: Framing) {
    forall o, frame, rest, total {:trigger framing(o, frame), parse(frame + rest, o.id, total)} ::
      framing(o, frame) && total + |o.content| <= MAX_TOTAL_BYTES ==>
        parse(frame + rest, o.id, total) == Some(Parsed(o, |frame|))
  }

  function Concat(frames: seq<string>): string {
    if frames == [] then "" else frames[0] + Concat(frames[1..])
  }

  function TotalSize(objects: seq<GitObject>): nat {
    if objects == [] then 0 else |objects[0].content| + TotalSize(objects[1..])
  }

  /** The frames answer the request: one for each identifier, in that order, within the limit. */
  ghost predicate Answers(framing: Framing, ids: seq<string>, total: int, objects: seq<GitObject>, frames: seq<string>) {
    && |objects| == |ids| == |frames|
    && (forall i :: 0 <= i < |ids| ==> objects[i].id == ids[i] && framing(objects[i], frames[i]))
    && total + TotalSize(objects) <= MAX_TOTAL_BYTES
  }

  lemma PrependAnswer(framing: Framing, ids: seq<string>, total: int, objects: seq<GitObject>, frames: seq<string>,
                      o: GitObject, frame: string)
    requires Answers(framing, ids, total + |o.content|, objects, frames) && framing(o, frame)
    ensures Answers(framing, [o.id] + ids, total, [o] + objects, [frame] + frames)
    ensures Concat([frame] + frames) == frame + Concat(frames)
  {
    assert ([o] + objects)[1..] == objects && ([frame] + frames)[1..] == frames;
  }

  lemma JoinSlices(s: string, n: nat, k: nat)
    requires n + k <= |s|
    ensures s[..n] + s[n..][..k] == s[..n + k]
  {
  }

  /** An accepted batch consumed exactly the frames of the requested objects, in the requested order. */
  lemma {:induction false} BatchIsFrames(parse: Parser, framing: Framing, data: string, ids: seq<string>, total: int)
    returns (frames: seq<string>)
    requires Sound(parse, framing) && total <= MAX_TOTAL_BYTES && ParseBatch(parse, data, ids, total).Some?
    ensures var b := ParseBatch(parse, data, ids, total).value;
            b.length <= |data| && Answers(framing, ids, total, b.objects, frames) && data[..b.length] == Concat(frames)
    decreases |ids|
  {
    if ids == [] {
      frames := [];
    } else {
      var Parsed(o, n) := parse(data, ids[0], total).value;
      var rest := ParseBatch(parse, data[n..], ids[1..], total + |o.content|).value;
      frames := BatchIsFrames(parse, framing, data[n..], ids[1..], total + |o.content|);
      PrependAnswer(framing, ids[1..], total, rest.objects, frames, o, data[..n]);
      assert [o.id] + ids[1..] == ids;
      JoinSlices(data, n, rest.length);
      frames := [data[..n]] + frames;
    }
  }

  /** Every such answer is accepted, whatever follows it. */
  lemma {:induction false} FramesAreParsed(parse: Parser, framing: Framing, ids: seq<string>, total: int,
                                           objects: seq<GitObject>, frames: seq<string>, rest: string)
    requires Complete(parse, framing) && Answers(framing, ids, total, objects, frames)
    ensures ParseBatch(parse, Concat(frames) + rest, ids, total) == Some(Batch(objects, |Concat(frames)|))
    decreases |ids|
  {
    if ids != [] {
      var o, frame, more := objects[0], frames[0], Concat(frames[1..]) + rest;
      FramesAreParsed(parse, framing, ids[1..], total + |o.content|, objects[1..], frames[1..], rest);
      assert Concat(frames) + rest == frame + more;
      assert framing(o, frame) && parse(frame + more, o.id, total) == Some(Parsed(o, |frame|));
      assert (frame + more)[|frame|..] == more;
      assert [o] + objects[1..] == objects;
    }
  }

  // ----- Git's framing -----------------------------------------------------------------------------------

  ghost predicate GitFrame(sha1: string -> string, o: GitObject, frame: string) {
    Genuine(sha1, o) && exists text :: FrameText(o, text) && frame == Frame(o, text)
  }

  /** In full: the identifier, the kind and the size on a line, the content, a newline; the kind is one of Git's four,
      the size is right and bounded, and the identifier is the SHA-1 of Git's own encoding. */
  lemma GitFrameMeans(sha1: string -> string, o: GitObject, frame: string)
    ensures GitFrame(sha1, o, frame) <==>
              && (o.kind == "blob" || o.kind == "tree" || o.kind == "commit" || o.kind == "tag")
              && |o.content| <= 2_000_000_000
              && sha1(o.kind + " " + Decimal(|o.content|) + "\0" + o.content) == o.id
              && exists text {:trigger PyInt(text)} ::
                   && PyInt(text) == Some(|o.content|)
                   && '\n' !in o.id && '\n' !in text && ' ' !in o.id
                   && frame == o.id + " " + o.kind + " " + text + "\n" + o.content + "\n"
  {
    forall text: string ensures Frame(o, text) == o.id + " " + o.kind + " " + text + "\n" + o.content + "\n" {
      FlatFrame(o, text);
    }
    assert ValidKind(o.kind) ==> ' ' !in o.kind && '\n' !in o.kind;
    forall text: string ensures ValidKind(o.kind) ==> ('\n' !in Line(o.id, o.kind, text) <==> '\n' !in o.id && '\n' !in text) {
      assert Line(o.id, o.kind, text) == o.id + " " + o.kind + " " + text;
    }
    if GitFrame(sha1, o, frame) {
      var text :| FrameText(o, text) && frame == Frame(o, text);
      assert PyInt(text) == Some(|o.content|);
    }
    if ValidKind(o.kind) && (exists text {:trigger PyInt(text)} ::
        PyInt(text) == Some(|o.content|) && '\n' !in o.id && '\n' !in text && ' ' !in o.id
        && frame == o.id + " " + o.kind + " " + text + "\n" + o.content + "\n") {
      var text {:trigger PyInt(text)} :| PyInt(text) == Some(|o.content|) && '\n' !in o.id && '\n' !in text && ' ' !in o.id
        && frame == o.id + " " + o.kind + " " + text + "\n" + o.content + "\n";
      assert FrameText(o, text) && frame == Frame(o, text);
    }
  }

  lemma FlatFrame(o: GitObject, text: string)
    ensures Frame(o, text) == o.id + " " + o.kind + " " + text + "\n" + o.content + "\n"
    ensures Line(o.id, o.kind, text) == o.id + " " + o.kind + " " + text
  {
    assert Line(o.id, o.kind, text) == o.id + " " + o.kind + " " + text;
  }

  ghost function GitFraming(sha1: string -> string): Framing {
    (o: GitObject, frame: string) => GitFrame(sha1, o, frame)
  }

  function GitParser(sha1: string -> string): Parser {
    (data: string, id: string, total: int) => ParseObject(sha1, data, id, total)
  }

  lemma GitParserIsSound(sha1: string -> string)
    ensures Sound(GitParser(sha1), GitFraming(sha1))
  {
    forall data, id, total | GitParser(sha1)(data, id, total).Some?
      ensures var p := GitParser(sha1)(data, id, total).value;
              && p.length <= |data| && p.item.id == id && total + |p.item.content| <= MAX_TOTAL_BYTES
              && GitFraming(sha1)(p.item, data[..p.length])
    {
      var text := ParsedIsFrame(sha1, data, id, total);
    }
  }

  lemma GitParserIsComplete(sha1: string -> string)
    ensures Complete(GitParser(sha1), GitFraming(sha1))
  {
    forall o: GitObject, frame: string, rest: string, total: int
      | GitFraming(sha1)(o, frame) && total + |o.content| <= MAX_TOTAL_BYTES
      ensures GitParser(sha1)(frame + rest, o.id, total) == Some(Parsed(o, |frame|))
    {
      var text :| FrameText(o, text) && frame == Frame(o, text);
      FrameIsParsed(sha1, o, text, rest, total);
    }
  }

  /** The batch is accepted if and only if the stream starts with correctly framed, correctly hashed
      objects for the requested identifiers in that order, together within the limit; and then exactly
      those bytes are consumed. */
  lemma BatchAcceptedExactly(sha1: string -> string, data: string, ids: seq<string>)
    ensures ParseBatch(GitParser(sha1), data, ids, 0).Some? <==>
              exists objects, frames :: Answers(GitFraming(sha1), ids, 0, objects, frames) && Concat(frames) <= data
    ensures forall objects, frames :: Answers(GitFraming(sha1), ids, 0, objects, frames) && Concat(frames) <= data ==>
              ParseBatch(GitParser(sha1), data, ids, 0) == Some(Batch(objects, |Concat(frames)|))
  {
    GitParserIsSound(sha1);
    GitParserIsComplete(sha1);
    if ParseBatch(GitParser(sha1), data, ids, 0).Some? {
      var frames := BatchIsFrames(GitParser(sha1), GitFraming(sha1), data, ids, 0);
    }
    forall objects, frames | Answers(GitFraming(sha1), ids, 0, objects, frames) && Concat(frames) <= data
      ensures ParseBatch(GitParser(sha1), data, ids, 0) == Some(Batch(objects, |Concat(frames)|))
    {
      var all := Concat(frames);
      assert data == all + data[|all|..];
      FramesAreParsed(GitParser(sha1), GitFraming(sha1), ids, 0, objects, frames, data[|all|..]);
    }
  }
}
