/**
 * The JSON-path formatting of the agent's configuration schema: a
 * validation error path such as "(root).agent.metrics_collection_interval"
 * becomes "/agent/metrics_collection_interval". The rewrite has two steps:
 * the pattern ^\(root\). replaces a leading "(root)" and the one character
 * after it (any character but a newline, since the final dot of the pattern
 * is an unescaped wildcard) with "/", then every '.' becomes '/'.
 *
 * Also here: the package-level schema string with its getter and setter.
 */
module ConfigSchema {

  /** The literal text the prefix pattern anchors on. */
  const Root: string := "(root)"

  /** The pattern ^\(root\). matches: "(root)" at the start, then one non-newline character. */
  predicate HasRootPrefix(s: string): (b: bool)
    ensures b ==> Root <= s && |s| > |Root| && s[|Root|] != '\n'
    ensures !b ==> !(Root <= s) || |s| == |Root| || s[|Root|] == '\n'
  {
    |s| >= 7 && s[..6] == Root && s[6] != '\n'
  }

  /** The first step: the seven matched characters become one "/"; without a match nothing changes. */
  function ReplaceRootPrefix(s: string): (r: string)
    ensures HasRootPrefix(s) ==> |r| == |s| - 6 && r[0] == '/' && r[1..] == s[7..]
    ensures !HasRootPrefix(s) ==> r == s
  {
    if HasRootPrefix(s) then "/" + s[7..] else s
  }

  /** One character of the second step. */
  function Slash(c: char): char
  {
    if c == '.' then '/' else c
  }

  /** The second step: every '.' becomes '/', every other character stays where it is. */
  function ReplaceDots(s: string): (r: string)
    ensures |r| == |s|
  {
    if |s| == 0 then "" else [Slash(s[0])] + ReplaceDots(s[1..])
  }

  /** One position of the second step. */
  lemma {:induction false} ReplaceDotsAt(s: string, i: int)
    requires 0 <= i < |s|
    ensures ReplaceDots(s)[i] == Slash(s[i])
  {
    if i > 0 {
      ReplaceDotsAt(s[1..], i - 1);
    }
  }

  /** The second step leaves no dot and keeps every other character in place. */
  lemma ReplaceDotsChars(s: string)
    ensures forall i :: 0 <= i < |s| ==> ReplaceDots(s)[i] == Slash(s[i])
    ensures '.' !in ReplaceDots(s)
  {
    forall i | 0 <= i < |s|
      ensures ReplaceDots(s)[i] == Slash(s[i])
    {
      ReplaceDotsAt(s, i);
    }
    assert forall i :: 0 <= i < |s| ==> ReplaceDots(s)[i] != '.';
  }

  /** GetFormattedPath: a matched prefix shortens the path by six characters and leaves a leading "/". */
  function GetFormattedPath(rawPath: string): (r: string)
    ensures |r| == if HasRootPrefix(rawPath) then |rawPath| - 6 else |rawPath|
    ensures HasRootPrefix(rawPath) ==> r[0] == '/'
  {
    ReplaceDots(ReplaceRootPrefix(rawPath))
  }

  /**
   * No '.' is left in a formatted path, and every character after the
   * prefix keeps its place (shifted by the prefix) with '.' turned into '/'.
   */
  lemma GetFormattedPathChars(rawPath: string)
    ensures '.' !in GetFormattedPath(rawPath)
    ensures HasRootPrefix(rawPath) ==>
      forall i :: 7 <= i < |rawPath| ==> GetFormattedPath(rawPath)[i - 6] == Slash(rawPath[i])
    ensures !HasRootPrefix(rawPath) ==>
      forall i :: 0 <= i < |rawPath| ==> GetFormattedPath(rawPath)[i] == Slash(rawPath[i])
  {
    var s := ReplaceRootPrefix(rawPath);
    ReplaceDotsChars(s);
    if HasRootPrefix(rawPath) {
      forall i | 7 <= i < |rawPath|
        ensures GetFormattedPath(rawPath)[i - 6] == Slash(rawPath[i])
      {
        assert s[i - 6] == s[1..][i - 7];
      }
    }
  }

  /** A path without dots is left alone by the second step. */
  lemma ReplaceDotsWithoutDots(s: string)
    requires '.' !in s
    ensures ReplaceDots(s) == s
  {
    ReplaceDotsChars(s);
    assert forall i :: 0 <= i < |s| ==> s[i] != '.';
  }

  /** A formatted path cannot carry the prefix again: it starts with "/" or it had no prefix to begin with. */
  lemma FormattedHasNoRootPrefix(rawPath: string)
    ensures !HasRootPrefix(GetFormattedPath(rawPath))
  {
    var r := GetFormattedPath(rawPath);
    GetFormattedPathChars(rawPath);
    if HasRootPrefix(rawPath) {
      if |r| >= 7 {
        assert r[..6][0] != Root[0];
      }
    } else if |r| >= 7 && r[..6] == Root {
      forall i | 0 <= i < 6
        ensures rawPath[i] == Root[i]
      {
        assert r[i] == r[..6][i];
      }
      assert rawPath[..6] == Root;
      assert r[6] == '\n';
    }
  }

  /** Formatting a formatted path changes nothing. */
  lemma GetFormattedPathIdempotent(rawPath: string)
    ensures GetFormattedPath(GetFormattedPath(rawPath)) == GetFormattedPath(rawPath)
  {
    var r := GetFormattedPath(rawPath);
    FormattedHasNoRootPrefix(rawPath);
    GetFormattedPathChars(rawPath);
    ReplaceDotsWithoutDots(r);
  }

  /** Only the leading "(root)" is rewritten: a later one keeps its text, shifted by the prefix. */
  lemma LaterRootKept(rawPath: string, p: nat)
    requires HasRootPrefix(rawPath)
    requires 7 <= p && p + 6 <= |rawPath| && rawPath[p..p + 6] == Root
    ensures GetFormattedPath(rawPath)[p - 6..p] == Root
  {
    var r := GetFormattedPath(rawPath);
    GetFormattedPathChars(rawPath);
    forall i | 0 <= i < 6
      ensures r[p - 6 + i] == Root[i]
    {
      assert rawPath[p + i] == rawPath[p..p + 6][i];
    }
  }

  /** A path with neither the prefix nor a dot passes through unchanged. */
  lemma PlainPathUnchanged(rawPath: string)
    requires !HasRootPrefix(rawPath) && '.' !in rawPath
    ensures GetFormattedPath(rawPath) == rawPath
  {
    ReplaceDotsWithoutDots(rawPath);
  }

  /** The second step works piece by piece. */
  lemma ReplaceDotsAppend(a: string, b: string)
    ensures ReplaceDots(a + b) == ReplaceDots(a) + ReplaceDots(b)
  {
    ReplaceDotsChars(a + b);
    ReplaceDotsChars(a);
    ReplaceDotsChars(b);
    var r, s := ReplaceDots(a + b), ReplaceDots(a) + ReplaceDots(b);
    forall i | 0 <= i < |r|
      ensures r[i] == s[i]
    {
      if i < |a| {
        assert (a + b)[i] == a[i];
      } else {
        assert (a + b)[i] == b[i - |a|];
      }
    }
  }

  /** Path segments joined by a separator. */
  function Join(segments: seq<string>, sep: string): string
  {
    if |segments| == 0 then ""
    else if |segments| == 1 then segments[0]
    else segments[0] + sep + Join(segments[1..], sep)
  }

  /** Dot-free segments joined by dots come out joined by slashes. */
  lemma {:induction false} ReplaceDotsJoin(segments: seq<string>)
    requires forall k :: 0 <= k < |segments| ==> '.' !in segments[k]
    ensures ReplaceDots(Join(segments, ".")) == Join(segments, "/")
  {
    if |segments| == 1 {
      ReplaceDotsWithoutDots(segments[0]);
    } else if |segments| > 1 {
      var head, tail := segments[0], segments[1..];
      ReplaceDotsJoin(tail);
      ReplaceDotsWithoutDots(head);
      ReplaceDotsAppend(head + ".", Join(tail, "."));
      ReplaceDotsAppend(head, ".");
    }
  }

  /**
   * The translation the comment above GetFormattedPath documents: a path of
   * dot-free segments under "(root)." becomes the same segments under "/",
   * separated by "/".
   */
  lemma RootedPathFormatted(segments: seq<string>)
    requires forall k :: 0 <= k < |segments| ==> '.' !in segments[k]
    ensures GetFormattedPath("(root)." + Join(segments, ".")) == "/" + Join(segments, "/")
  {
    var raw := "(root)." + Join(segments, ".");
    assert raw[..6] == Root;
    assert raw[7..] == Join(segments, ".");
    ReplaceDotsJoin(segments);
    ReplaceDotsAppend("/", Join(segments, "."));
  }

  /** One dot-free segment followed by a dot: the dot becomes a slash and the segment stays. */
  lemma SegmentThenDot(segment: string, rest: string)
    requires '.' !in segment
    ensures ReplaceDots(segment + "." + rest) == segment + "/" + ReplaceDots(rest)
  {
    ReplaceDotsWithoutDots(segment);
    ReplaceDotsAppend(segment + ".", rest);
    ReplaceDotsAppend(segment, ".");
  }

  /** A path under "(root)." becomes "/" and the rest with its dots replaced. */
  lemma RootedPath(rest: string)
    ensures GetFormattedPath("(root)." + rest) == "/" + ReplaceDots(rest)
  {
    var raw := "(root)." + rest;
    assert raw[..6] == Root;
    assert raw[7..] == rest;
    ReplaceDotsAppend("/", rest);
  }

  /** The package-level schema document, replaceable at run time. */
  class SchemaStore {
    var schema: string

    /** The store holding its initial schema document. */
    constructor (initial: string)
      ensures schema == initial
    {
      schema := initial;
    }

    /** GetJsonSchema: the schema currently held. */
    method GetJsonSchema() returns (s: string)
      ensures s == schema
    {
      s := schema;
    }

    /** OverwriteSchema: newSchema replaces the schema held. */
    method OverwriteSchema(newSchema: string)
      modifies this
      ensures schema == newSchema
    {
      schema := newSchema;
    }
  }

  /** GetJsonSchema returns exactly the string most recently passed to OverwriteSchema. */
  method OverwriteThenGet(store: SchemaStore, newSchema: string) returns (s: string)
    modifies store
    ensures s == newSchema
  {
    store.OverwriteSchema(newSchema);
    s := store.GetJsonSchema();
  }
}
