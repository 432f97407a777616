/**
  URLs: a scheme and path components, parsed by splitting at "/" and printed by joining.

  The path part is modelled for the network schemes; for anything else the source asks the file
  system, and the model says so.
 */
module Urls {
  import opened Bits
  import opened Encodings
  import opened Options
  import opened Boundaries
  import opened Strings
  import opened Splitting

  datatype UrlType = POSIX | HTTP | HTTPS

  const SLASH: Byte := 0x2F

  /** "http://", "https://" and "/". */
  function Prefix(urlType: UrlType): seq<Byte> {
    match urlType
    case HTTP => [0x68, 0x74, 0x74, 0x70, 0x3A, 0x2F, 0x2F]
    case HTTPS => [0x68, 0x74, 0x74, 0x70, 0x73, 0x3A, 0x2F, 0x2F]
    case POSIX => [SLASH]
  }

  function BytesOf(components: seq<Text>): (ps: seq<seq<Byte>>)
    ensures |ps| == |components| && forall k :: 0 <= k < |ps| ==> ps[k] == components[k].bytes
  {
    seq(|components|, k requires 0 <= k < |components| => components[k].bytes)
  }

  predicate ValidComponents(components: seq<Text>) {
    forall c :: c in components ==> ValidText(c)
  }

  function JoinedPath(components: seq<Text>): seq<Byte> {
    Join(BytesOf(components), [SLASH])
  }

  function Printed(urlType: UrlType, components: seq<Text>): seq<Byte> {
    Prefix(urlType) + JoinedPath(components)
  }

  lemma PrefixIsText(urlType: UrlType)
    ensures IsAscii(Prefix(urlType)) && NulFree(Prefix(urlType))
    ensures ValidText(Text(UTF8, Prefix(urlType)))
  {
    AsciiIsUtf8(Prefix(urlType));
  }

  /** An append that cannot be refused. */
  method AppendPlain(m: MutableString, t: Text)
    requires m.Valid() && m.encoding == UTF8 && ValidText(t) && IsText(UTF8, t.bytes)
    modifies m`buffer, m`length
    ensures m.Valid() && fresh(m.buffer) && m.Value() == Text(UTF8, old(m.Value()).bytes + t.bytes)
  {
    hide IsText, ValidText, NulFree, EncodeAll;
    var ok := m.AppendString(t, true);
  }

  class Url {
    const urlType: UrlType
    const pathComponents: seq<Text>
    var pathString: Option<Text>

    /** The cached path, once there is one, is the path that printing gives. */
    predicate Valid()
      reads this
    {
      && ValidComponents(pathComponents)
      && (pathString.Some? ==> pathString.value == Text(UTF8, Printed(urlType, pathComponents)))
    }

    constructor (urlType: UrlType, components: seq<Text>)
      requires ValidComponents(components)
      ensures Valid() && this.urlType == urlType && pathComponents == components && pathString == None
    {
      this.urlType, pathComponents, pathString := urlType, components, None;
    }

    /** Prints the URL: the prefix, then the components with "/" between them. */
    method CopyPath() returns (path: Text)
      requires Valid()
      ensures path == Text(UTF8, Printed(urlType, pathComponents)) && ValidText(path)
    {
      hide IsText, NulFree, Join, EncodeAll;
      PrefixIsText(urlType);
      PrefixIsText(POSIX);
      JoinNothing([SLASH]);
      var mutable := new MutableString(Text(UTF8, Prefix(urlType)));
      ghost var ps := BytesOf(pathComponents);
      for index := 0 to |pathComponents|
        invariant mutable.Valid() && fresh(mutable) && fresh(mutable.buffer) && mutable.encoding == UTF8
        invariant mutable.Value().bytes == Prefix(urlType) + Join(ps[..index], [SLASH])
      {
        if index > 0 {
          AppendPlain(mutable, Text(UTF8, [SLASH]));
        }
        ComponentIsUtf8(pathComponents[index]);
        AppendPlain(mutable, pathComponents[index]);
        JoinSnoc(ps[..index], ps[index], [SLASH]);
        assert ps[..index] + [ps[index]] == ps[..index + 1];
      }
      assert ps[..|pathComponents|] == ps;
      path := mutable.Value();
    }

    /** The cached path; printed and kept on the first call. */
    method GetPath() returns (path: Text)
      requires Valid()
      modifies this
      ensures Valid() && pathString == Some(path)
      ensures path == Text(UTF8, Printed(urlType, pathComponents))
    {
      if pathString == None {
        var printed := CopyPath();
        pathString := Some(printed);
      }
      path := pathString.value;
    }

    method AppendingPathComponent(component: Text) returns (url: Url)
      requires Valid() && ValidText(component)
      ensures fresh(url) && url.Valid() && url.urlType == urlType && url.pathString == None
      ensures url.pathComponents == pathComponents + [component]
      ensures JoinedPath(url.pathComponents) ==
              if pathComponents == [] then component.bytes else JoinedPath(pathComponents) + [SLASH] + component.bytes
    {
      url := new Url(urlType, pathComponents + [component]);
      JoinSnoc(BytesOf(pathComponents), component.bytes, [SLASH]);
      assert BytesOf(pathComponents + [component]) == BytesOf(pathComponents) + [component.bytes];
    }

    /** Without the last component; a URL without components is copied. */
    method DeletingLastPathComponent() returns (url: Url)
      requires Valid()
      ensures fresh(url) && url.Valid() && url.urlType == urlType && url.pathString == None
      ensures pathComponents == url.pathComponents +
              if pathComponents == [] then [] else [pathComponents[|pathComponents| - 1]]
    {
      var components := pathComponents;
      var index := |components| - 1;
      if 0 <= index < |components| { components := components[..index] + components[index + 1..]; }
      url := new Url(urlType, components);
    }

    method ReplacingLastPathComponent(component: Text) returns (url: Url)
      requires Valid() && ValidText(component)
      ensures fresh(url) && url.Valid() && url.urlType == urlType && url.pathString == None
      ensures url.pathComponents ==
              (if pathComponents == [] then [] else pathComponents[..|pathComponents| - 1]) + [component]
    {
      var second := DeletingLastPathComponent();
      url := second.AppendingPathComponent(component);
    }
  }

  lemma ComponentIsUtf8(c: Text)
    requires ValidText(c)
    ensures IsText(UTF8, c.bytes)
  {
    if c.encoding.ASCII? { AsciiIsUtf8(c.bytes); }
  }

  lemma {:induction false} JoinSnoc(ps: seq<seq<Byte>>, p: seq<Byte>, sep: seq<Byte>)
    ensures Join(ps + [p], sep) == if ps == [] then p else Join(ps, sep) + sep + p
  {
    if ps == [] {
      assert ps + [p] == [p];
    } else {
      JoinSnoc(ps[1..], p, sep);
      assert (ps + [p])[1..] == ps[1..] + [p];
      if |ps| > 1 { assert Join(ps + [p], sep) == ps[0] + sep + Join(ps[1..] + [p], sep); }
    }
  }

  lemma JoinNothing(sep: seq<Byte>)
    ensures Join([], sep) == []
  {
  }

  // ---- parsing ----

  datatype ParseResult = Parsed(urlType: UrlType, components: seq<Text>) | Rejected | AsksFileSystem

  /** What parsing means: the scheme is a prefix, and the rest must be "/" or longer than it. */
  function Parse(t: Text): ParseResult {
    if Prefix(HTTP) <= t.bytes then ParsePath(HTTP, t.encoding, t.bytes[7..])
    else if Prefix(HTTPS) <= t.bytes then ParsePath(HTTPS, t.encoding, t.bytes[8..])
    else AsksFileSystem
  }

  function ParsePath(urlType: UrlType, encoding: Encoding, path: seq<Byte>): ParseResult {
    if path == [SLASH] then Parsed(urlType, [])
    else if |path| <= 1 then Rejected
    else Parsed(urlType, TextsOf(encoding, SplitBytes(path, [SLASH])))
  }

  lemma AfterAscii(t: Text, n: nat)
    requires ValidText(t) && n <= |t.bytes| && IsAscii(t.bytes[..n])
    ensures ValidText(Text(t.encoding, t.bytes[n..]))
  {
    if t.encoding.UTF8? {
      AsciiIsUtf8(t.bytes[..n]);
      JoinUtf8(t.bytes[..n], t.bytes[n..]);
      assert t.bytes == t.bytes[..n] + t.bytes[n..];
    }
  }

  /** The path part of a network URL: copied, compared with "/", and split. */
  method CreateFromPath(t: Text, urlType: UrlType) returns (r: ParseResult)
    requires ValidText(t) && !urlType.POSIX? && Prefix(urlType) <= t.bytes
    ensures r == ParsePath(urlType, t.encoding, t.bytes[|Prefix(urlType)|..])
  {
    hide IsUtf8, SplitBytes;
    PrefixIsText(urlType);
    PrefixIsText(POSIX);
    var n := |Prefix(urlType)|;
    AfterAscii(t, n);
    var copy := CreateFromPart(t.bytes[n..], t.encoding);
    if copy.None? { return Rejected; }
    var path, slash := copy.value, Text(UTF8, [SLASH]);
    var isRoot := Equal(path, slash);
    if isRoot { return Parsed(urlType, []); }
    assert IsAscii([SLASH]);
    var components := Split(path, slash);
    if components.None? { return Rejected; }
    return Parsed(urlType, components.value);
  }

  method CreateWithString(t: Text) returns (r: ParseResult)
    requires ValidText(t)
    ensures r == Parse(t)
  {
    hide IsUtf8, SplitBytes, ParsePath;
    PrefixIsText(HTTP);
    PrefixIsText(HTTPS);
    var isHttp := EqualRange(t, Text(UTF8, Prefix(HTTP)), 0, 7, []);
    if isHttp {
      r := CreateFromPath(t, HTTP);
    } else {
      var isHttps := EqualRange(t, Text(UTF8, Prefix(HTTPS)), 0, 8, []);
      if isHttps { r := CreateFromPath(t, HTTPS); } else { r := AsksFileSystem; }
    }
  }

  /** Components of an accepted URL are valid strings in the encoding of the input. */
  lemma ParsedIsValid(t: Text)
    requires ValidText(t) && Parse(t).Parsed?
    ensures ValidComponents(Parse(t).components)
  {
    hide SplitBytes, IsUtf8, Prefix;
    var u := Parse(t);
    PrefixIsText(u.urlType);
    var n := |Prefix(u.urlType)|;
    assert n <= |t.bytes| && t.bytes[..n] == Prefix(u.urlType) by { PrefixOfParsed(t); }
    AfterAscii(t, n);
    var path := Text(t.encoding, t.bytes[n..]);
    assert u == ParsePath(u.urlType, t.encoding, path.bytes) by { PrefixOfParsed(t); }
    PrefixIsText(POSIX);
    assert IsText(t.encoding, [SLASH]) by {
      if t.encoding.UTF8? {
        assert ValidText(Text(UTF8, Prefix(POSIX)));
        PosixPrefix();
      }
    }
    forall p | p in SplitBytes(path.bytes, [SLASH]) ensures ValidText(Text(t.encoding, p)) {
      SplitIsText(path, [SLASH], p);
    }
  }

  lemma PosixPrefix()
    ensures Prefix(POSIX) == [SLASH]
  {
  }

  lemma PrefixOfParsed(t: Text)
    requires Parse(t).Parsed?
    ensures var u := Parse(t);
            && Prefix(u.urlType) <= t.bytes && !u.urlType.POSIX?
            && u == ParsePath(u.urlType, t.encoding, t.bytes[|Prefix(u.urlType)|..])
  {
    hide SplitBytes;
  }

  /** A URL object, a refusal, or a string whose URL depends on what the file system answers. */
  datatype Creation = Created(url: Url) | Refused | NeedsFileSystem

  /** An accepted string gives its URL; one without a network scheme is left to the file system. */
  method CreateUrl(t: Text) returns (r: Creation)
    requires ValidText(t)
    ensures r.NeedsFileSystem? <==> !(Prefix(HTTP) <= t.bytes) && !(Prefix(HTTPS) <= t.bytes)
    ensures r.NeedsFileSystem? <==> Parse(t).AsksFileSystem?
    ensures r.Refused? <==> Parse(t).Rejected?
    ensures r.Created? ==>
              && fresh(r.url) && r.url.Valid() && r.url.pathString == None
              && Parsed(r.url.urlType, r.url.pathComponents) == Parse(t)
  {
    hide ParsePath;
    OnlyOthersAsk(t);
    var parsed := CreateWithString(t);
    match parsed {
      case Rejected => r := Refused;
      case AsksFileSystem => r := NeedsFileSystem;
      case Parsed(urlType, components) =>
        ParsedIsValid(t);
        var url := new Url(urlType, components);
        r := Created(url);
    }
  }

  /** Only strings without a network scheme are left to the file system. */
  lemma OnlyOthersAsk(t: Text)
    ensures Parse(t).AsksFileSystem? <==> !(Prefix(HTTP) <= t.bytes) && !(Prefix(HTTPS) <= t.bytes)
  {
  }

  // ---- the texts themselves ----

  /** What a URL prints as: "/", "http://" or "https://", and the components with "/" between them. */
  lemma PrintedIs(components: seq<Text>)
    ensures Printed(POSIX, components) == [0x2F] + JoinedPath(components)
    ensures Printed(HTTP, components) == [0x68, 0x74, 0x74, 0x70, 0x3A, 0x2F, 0x2F] + JoinedPath(components)
    ensures Printed(HTTPS, components) == [0x68, 0x74, 0x74, 0x70, 0x73, 0x3A, 0x2F, 0x2F] + JoinedPath(components)
  {
  }

  lemma JoinedIs(c: Text, rest: seq<Text>)
    ensures JoinedPath([]) == []
    ensures JoinedPath([c] + rest) == c.bytes + if rest == [] then [] else [0x2F] + JoinedPath(rest)
  {
    assert BytesOf([c] + rest) == [c.bytes] + BytesOf(rest);
    if rest == [] {
      JoinOne(c.bytes, [SLASH]);
    } else {
      JoinCons(c.bytes, BytesOf(rest), [SLASH]);
    }
  }

  /** What parsing answers for "http://" and "https://", a path behind them, and anything else. */
  lemma ParseIs(encoding: Encoding, path: seq<Byte>, other: Text)
    ensures Parse(Text(encoding, [0x68, 0x74, 0x74, 0x70, 0x3A, 0x2F, 0x2F] + path)) ==
            if path == [0x2F] then Parsed(HTTP, [])
            else if |path| < 2 then Rejected
            else Parsed(HTTP, TextsOf(encoding, SplitBytes(path, [0x2F])))
    ensures Parse(Text(encoding, [0x68, 0x74, 0x74, 0x70, 0x73, 0x3A, 0x2F, 0x2F] + path)) ==
            if path == [0x2F] then Parsed(HTTPS, [])
            else if |path| < 2 then Rejected
            else Parsed(HTTPS, TextsOf(encoding, SplitBytes(path, [0x2F])))
    ensures Parse(other).AsksFileSystem? <==>
            && !([0x68, 0x74, 0x74, 0x70, 0x3A, 0x2F, 0x2F] <= other.bytes)
            && !([0x68, 0x74, 0x74, 0x70, 0x73, 0x3A, 0x2F, 0x2F] <= other.bytes)
  {
    hide SplitBytes;
    ParseOfPrinted(HTTP, encoding, path);
    ParseOfPrinted(HTTPS, encoding, path);
    OnlyOthersAsk(other);
  }

  /** "http:///" gives a URL without components. */
  lemma RootUrl(encoding: Encoding)
    ensures Parse(Text(encoding, [0x68, 0x74, 0x74, 0x70, 0x3A, 0x2F, 0x2F] + [0x2F])) == Parsed(HTTP, [])
  {
    hide Parse;
    ParseIs(encoding, [0x2F], Text(encoding, []));
  }

  // ---- round trips ----

  predicate PlainComponents(ps: seq<seq<Byte>>) {
    forall k :: 0 <= k < |ps| ==> ps[k] != [] && SLASH !in ps[k]
  }

  /** Non-empty components without "/" that join to at least two bytes. */
  predicate Printable(components: seq<Text>) {
    PlainComponents(BytesOf(components)) && |JoinedPath(components)| >= 2
  }

  lemma SplitOfJoin(ps: seq<seq<Byte>>)
    requires PlainComponents(ps) && ps != []
    ensures SplitBytes(Join(ps, [SLASH]), [SLASH]) == ps
  {
    assert [] + Join(ps, [SLASH]) == Join(ps, [SLASH]);
    JoinThenPieces(ps, SLASH, []);
    AllNonEmpty(ps);
  }

  lemma SplitIsPlain(s: seq<Byte>)
    ensures PlainComponents(SplitBytes(s, [SLASH]))
  {
    var ps := SplitBytes(s, [SLASH]);
    forall k | 0 <= k < |ps| ensures ps[k] != [] && SLASH !in ps[k] {
      SplitPieces(s, [SLASH], ps[k], 0);
      forall i | 0 <= i < |ps[k]| ensures ps[k][i] != SLASH {
        SplitPieces(s, [SLASH], ps[k], i);
        assert ps[k][i..i + 1] == [ps[k][i]];
      }
    }
  }

  lemma ParseOfPrinted(urlType: UrlType, encoding: Encoding, path: seq<Byte>)
    requires !urlType.POSIX?
    ensures Parse(Text(encoding, Prefix(urlType) + path)) == ParsePath(urlType, encoding, path)
  {
    var s := Prefix(urlType) + path;
    assert s[..|Prefix(urlType)|] == Prefix(urlType) && s[|Prefix(urlType)|..] == path;
    if urlType.HTTPS? { assert s[4] == 0x73; assert !(Prefix(HTTP) <= s); }
  }

  /**
    Creating a URL from its printed path gives back the scheme and the component bytes exactly
    when the components are non-empty, free of "/" and join to at least two bytes.
   */
  lemma PrintThenParse(urlType: UrlType, components: seq<Text>)
    requires !urlType.POSIX?
    ensures var r := Parse(Text(UTF8, Printed(urlType, components)));
            r.Parsed? && r.urlType == urlType && BytesOf(r.components) == BytesOf(components) <==>
            Printable(components)
  {
    hide Parse, SplitBytes, Prefix;
    var ps, path := BytesOf(components), JoinedPath(components);
    ParseOfPrinted(urlType, UTF8, path);
    SplitIsPlain(path);
    assert BytesOf(TextsOf(UTF8, SplitBytes(path, [SLASH]))) == SplitBytes(path, [SLASH]);
    if Printable(components) { SplitOfJoin(ps); }
    if ps == [] { assert path == []; }
  }

  /** On accepted input, printing and parsing again is stable exactly when at least two bytes are printed. */
  lemma ParseThenPrint(t: Text)
    requires Parse(t).Parsed?
    ensures var u := Parse(t);
            var v := Parse(Text(UTF8, Printed(u.urlType, u.components)));
            && PlainComponents(BytesOf(u.components))
            && (v.Parsed? && v.urlType == u.urlType && BytesOf(v.components) == BytesOf(u.components) <==>
                |JoinedPath(u.components)| >= 2)
  {
    hide SplitBytes;
    var u := Parse(t);
    var path := t.bytes[|Prefix(u.urlType)|..];
    SplitIsPlain(path);
    assert BytesOf(TextsOf(t.encoding, SplitBytes(path, [SLASH]))) == SplitBytes(path, [SLASH]);
    PrintThenParse(u.urlType, u.components);
  }

  /** Printing is idempotent on such input: the second print is the first. */
  lemma PrintIdempotent(t: Text)
    requires Parse(t).Parsed? && |JoinedPath(Parse(t).components)| >= 2
    ensures var u := Parse(t);
            var printed := Printed(u.urlType, u.components);
            var v := Parse(Text(UTF8, printed));
            v.Parsed? && Printed(v.urlType, v.components) == printed
  {
    hide Parse, Prefix;
    ParseThenPrint(t);
  }

  /** "http://a/" is accepted, prints as "http://a", and that is rejected. */
  lemma OneLetterHost(s: seq<Byte>)
    requires s == Prefix(HTTP) + [0x61, SLASH]
    ensures var u := Parse(Text(UTF8, s));
            u == Parsed(HTTP, [Text(UTF8, [0x61])]) && Parse(Text(UTF8, Printed(HTTP, u.components))) == Rejected
  {
    var path: seq<Byte> := [0x61, SLASH];
    var ps: seq<seq<Byte>> := [[0x61], []];
    assert Join(ps[1..], [SLASH]) == [];
    assert Join(ps, [SLASH]) == path && [] + path == path;
    JoinThenPieces(ps, SLASH, []);
    assert NonEmpty(ps[1..]) == [] && NonEmpty(ps) == [[0x61]];
    assert SplitBytes(path, [SLASH]) == [[0x61]];
    ParseOfPrinted(HTTP, UTF8, path);
    assert TextsOf(UTF8, [[0x61]]) == [Text(UTF8, [0x61])];
    assert BytesOf([Text(UTF8, [0x61])]) == [[0x61]];
    ParseOfPrinted(HTTP, UTF8, [0x61]);
  }
}
