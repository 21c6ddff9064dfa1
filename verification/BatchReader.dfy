/** The loops of deployment/repository_snapshot.py that read the object stream piece by piece. */
module BatchReader {
  import opened Prelude
  import opened ObjectStream

  /** What the rest of a batch adds to the objects already read. */
  function After(objects: seq<GitObject>, length: nat, rest: Option<Batch>): Option<Batch> {
    if rest.None? then None else Some(Batch(objects + rest.value.objects, length + rest.value.length))
  }

  /** Reading one object moves it from the rest of the batch to the front. */
  lemma {:induction false} AfterNext(
      parse: Parser, data: string, pos: nat, ids: seq<string>, i: nat, total: int, objects: seq<GitObject>, length: nat)
    requires pos <= |data| && i < |ids| && parse(data[pos..], ids[i], total).Some?
    requires pos + parse(data[pos..], ids[i], total).value.length <= |data|
    ensures var Parsed(o, n) := parse(data[pos..], ids[i], total).value;
            After(objects, length, ParseFrom(parse, data, pos, ids, i, total))
            == After(objects + [o], length + n, ParseFrom(parse, data, pos + n, ids, i + 1, total + |o.content|))
  {
    var Parsed(o, n) := parse(data[pos..], ids[i], total).value;
    var rest := ParseFrom(parse, data, pos + n, ids, i + 1, total + |o.content|);
    if rest.Some? {
      assert objects + ([o] + rest.value.objects) == objects + [o] + rest.value.objects;
    }
  }

  lemma {:induction false} AfterNothing(rest: Option<Batch>)
    ensures After([], 0, rest) == rest
  {
    assert rest.Some? ==> [] + rest.value.objects == rest.value.objects;
  }

  class Stream {
    const data: string
    var pos: nat

    ghost predicate Valid()
      reads this
    {
      pos <= |data|
    }

    constructor (data: string)
      ensures Valid() && this.data == data && pos == 0
    {
      this.data := data;
      pos := 0;
    }

    /** At most `n` bytes; fewer only at the end of the stream. */
    method Read(n: nat) returns (chunk: string)
      requires Valid()
      modifies this
      ensures Valid() && pos == old(pos) + |chunk| && chunk == data[old(pos)..pos]
      ensures |chunk| == if old(pos) + n <= |data| then n else |data| - old(pos)
    {
      var stop := if pos + n <= |data| then pos + n else |data|;
      chunk := data[pos..stop];
      pos := stop;
    }

    /** The next line without its newline; `ended` if the stream ran out first. */
    method ReadLine() returns (line: string, ended: bool)
      requires Valid()
      modifies this
      ensures Valid()
      ensures var rest := data[old(pos)..]; var nl := Find(rest, '\n');
              line == rest[..nl] && ended == (nl == |rest|) && pos == old(pos) + nl + (if ended then 0 else 1)
    {
      var start := pos;
      while pos < |data| && data[pos] != '\n'
        invariant start <= pos <= |data|
        invariant forall k :: start <= k < pos ==> data[k] != '\n'
      {
        pos := pos + 1;
      }
      line := data[start..pos];
      ended := pos == |data|;
      ghost var rest := data[start..];
      if !ended {
        FindIs(rest, '\n', pos - start);
        pos := pos + 1;
      } else {
        assert Find(rest, '\n') == |rest|;
      }
    }

    /** `_copy_exact`: chunk by chunk until nothing remains. */
    method CopyExact(size: nat) returns (ok: bool, content: string)
      requires Valid()
      modifies this
      ensures Valid()
      ensures ok <==> old(pos) + size <= |data|
      ensures ok ==> pos == old(pos) + size && content == data[old(pos)..pos]
    {
      var remaining := size;
      content := "";
      while remaining > 0
        invariant Valid() && 0 <= remaining <= size && pos == old(pos) + (size - remaining)
        invariant content == data[old(pos)..pos]
      {
        var chunk := Read(if remaining < CHUNK then remaining else CHUNK);
        if chunk == "" {
          return false, content;
        }
        content := content + chunk;
        remaining := remaining - |chunk|;
      }
      return true, content;
    }

    /** The content, the newline that ends it, and the check of the content's identity. */
    method ReadBody(sha1: string -> string, h: Header) returns (r: Option<GitObject>)
      requires Valid() && ValidKind(h.kind) && 0 <= h.size <= MAX_OBJECT_BYTES
      modifies this
      ensures Valid()
      ensures r == ParseBody(sha1, h, data[old(pos)..])
      ensures r.Some? ==> pos == old(pos) + h.size + 1
    {
      ghost var start, body := pos, data[pos..];
      var ok, content := CopyExact(h.size);
      if !ok {
        return None;
      }
      ghost var end := pos;
      var newline := Read(1);
      assert end < |data| ==> newline == [data[end]];
      assert content == body[..h.size];
      if newline != "\n" || sha1(Loose(h.kind, content)) != h.id {
        return None;
      }
      return Some(GitObject(h.id, h.kind, content));
    }

    /** One iteration of the batch loop. */
    method ReadObject(sha1: string -> string, id: string, total: int) returns (r: Option<GitObject>)
      requires Valid()
      modifies this
      ensures Valid()
      ensures var p := ParseObject(sha1, data[old(pos)..], id, total);
              && (r.Some? <==> p.Some?)
              && (r.Some? ==> r.value == p.value.item && pos == old(pos) + p.value.length)
    {
      ghost var rest, start := data[pos..], pos;
      var line, ended := ReadLine();
      var header := ParseHeader(line);
      if header.None? || ended || !Allowed(header.value, id, total) {
        return None;
      }
      BodyOfRest(data, start, pos);
      r := ReadBody(sha1, header.value);
    }

    method ReadNext(sha1: string -> string, ghost parse: Parser, id: string, total: int) returns (r: Option<GitObject>)
      requires Valid() && Implements(parse, sha1)
      modifies this
      ensures Valid()
      ensures var p := parse(data[old(pos)..], id, total);
              && (r.Some? <==> p.Some?)
              && (r.Some? ==> r.value == p.value.item && pos == old(pos) + p.value.length)
    {
      assert Requested(data[pos..], id, total);
      r := ReadObject(sha1, id, total);
    }

    /** The batch loop: it keeps the running total and collects the objects. */
    method ReadAll(sha1: string -> string, ghost parse: Parser, ids: seq<string>) returns (r: Option<seq<GitObject>>)
      requires Valid() && Implements(parse, sha1)
      modifies this
      ensures Valid()
      ensures var b := ParseFrom(parse, data, old(pos), ids, 0, 0);
              && (r.Some? <==> b.Some?)
              && (r.Some? ==> r.value == b.value.objects && pos == old(pos) + b.value.length)
    {
      var objects: seq<GitObject>, total := [], 0;
      ghost var start := pos;
      ghost var all := ParseFrom(parse, data, start, ids, 0, 0);
      AfterNothing(all);
      for i := 0 to |ids|
        invariant Valid() && start <= pos
        invariant all == After(objects, pos - start, ParseFrom(parse, data, pos, ids, i, total))
      {
        ghost var before := pos;
        var next := ReadNext(sha1, parse, ids[i], total);
        if next.None? {
          return None;
        }
        AfterNext(parse, data, before, ids, i, total, objects, before - start);
        objects := objects + [next.value];
        total := total + |next.value.content|;
      }
      return Some(objects);
    }

    /** `_materialize_objects_and_files`, the reading half: every requested object or nothing. */
    method ReadBatch(sha1: string -> string, ids: seq<string>) returns (r: Option<seq<GitObject>>)
      requires Valid()
      modifies this
      ensures Valid()
      ensures var b := ParseBatch(GitParser(sha1), data[old(pos)..], ids, 0);
              && (r.Some? <==> b.Some?)
              && (r.Some? ==> r.value == b.value.objects && pos == old(pos) + b.value.length)
    {
      ParseFromIsBatch(GitParser(sha1), data, pos, ids, 0, 0);
      assert ids[0..] == ids;
      r := ReadAll(sha1, GitParser(sha1), ids);
    }
  }

  /** Names a request that a proof looks at. */
  ghost predicate Requested(data: string, id: string, total: int) {
    true
  }

  ghost predicate Implements(parse: Parser, sha1: string -> string) {
    forall data, id, total {:trigger Requested(data, id, total)} ::
      Requested(data, id, total) ==> parse(data, id, total) == ParseObject(sha1, data, id, total)
  }

  lemma BodyOfRest(data: string, start: nat, pos: nat)
    requires start <= pos <= |data|
    ensures data[start..][pos - start..] == data[pos..]
  {
  }

  /** `ParseBatch` by positions in the stream and in the request. */
  ghost function ParseFrom(parse: Parser, data: string, pos: nat, ids: seq<string>, i: nat, total: int): Option<Batch>
    requires pos <= |data| && i <= |ids|
    decreases |ids| - i
  {
    if i == |ids| then Some(Batch([], 0))
    else
      var first := parse(data[pos..], ids[i], total);
      if first.None? || pos + first.value.length > |data| then None
      else
        var Parsed(o, n) := first.value;
        var rest := ParseFrom(parse, data, pos + n, ids, i + 1, total + |o.content|);
        if rest.None? then None else Some(Batch([o] + rest.value.objects, n + rest.value.length))
  }

  lemma {:induction false} ParseFromIsBatch(parse: Parser, data: string, pos: nat, ids: seq<string>, i: nat, total: int)
    requires pos <= |data| && i <= |ids|
    ensures ParseFrom(parse, data, pos, ids, i, total) == ParseBatch(parse, data[pos..], ids[i..], total)
    decreases |ids| - i
  {
    if i < |ids| {
      var first := parse(data[pos..], ids[i], total);
      assert ids[i..][0] == ids[i] && ids[i..][1..] == ids[i + 1..];
      if first.Some? && pos + first.value.length <= |data| {
        var n := first.value.length;
        BodyOfRest(data, pos, pos + n);
        ParseFromIsBatch(parse, data, pos + n, ids, i + 1, total + |first.value.item.content|);
      }
    }
  }
}
