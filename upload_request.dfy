/** The request side of `upload_file`: which name the file is stored under, and the URL of the
    upload request with its `file_name` / `tier` / `epochs` query. */
module UploadRequest {
  import opened Wrappers
  import opened Strings
  import opened PercentEncoding

  type u32 = x: int | 0 <= x < 0x1_0000_0000

  /** Rust's `char::is_whitespace`: the Unicode White_Space property. */
  predicate IsWhitespace(c: char) {
    var cp := c as int;
    || (0x09 <= cp <= 0x0D) || cp == 0x20 || cp == 0x85 || cp == 0xA0 || cp == 0x1680
    || (0x2000 <= cp <= 0x200A) || cp == 0x2028 || cp == 0x2029 || cp == 0x202F
    || cp == 0x205F || cp == 0x3000
  }

  /** `s.trim_end()`: the longest prefix that does not end in whitespace. */
  function TrimWhitespaceEnd(s: string): (r: string)
    ensures |r| <= |s| && r == s[..|r|]
    ensures |r| > 0 ==> !IsWhitespace(r[|r| - 1])
    ensures forall i :: |r| <= i < |s| ==> IsWhitespace(s[i])
  {
    if |s| > 0 && IsWhitespace(s[|s| - 1]) then TrimWhitespaceEnd(s[..|s| - 1]) else s
  }

  /** `s.trim_start()`: the longest suffix that does not start with whitespace. */
  function TrimWhitespaceStart(s: string): (r: string)
    ensures |r| <= |s| && r == s[|s| - |r|..]
    ensures |r| > 0 ==> !IsWhitespace(r[0])
    ensures forall i :: 0 <= i < |s| - |r| ==> IsWhitespace(s[i])
  {
    if |s| > 0 && IsWhitespace(s[0]) then TrimWhitespaceStart(s[1..]) else s
  }

  /** `s.trim().is_empty()`: true exactly when the text is nothing but whitespace. */
  function IsBlank(s: string): (r: bool)
    ensures r <==> forall i :: 0 <= i < |s| ==> IsWhitespace(s[i])
  {
    var e := TrimWhitespaceEnd(s);
    assert forall i :: 0 <= i < |e| ==> e[i] == s[i];
    |TrimWhitespaceStart(e)| == 0
  }

  /** A final path component `Path::file_name` can return: non-empty, no separator, and
      neither `.` nor `..`. */
  predicate IsPlainComponent(n: string) {
    |n| > 0 && !Contains(n, '/') && n != "." && n != ".."
  }

  /** The characters after the last `/`. */
  function LastSegment(p: string): (r: string)
    ensures |r| <= |p| && r == p[|p| - |r|..]
    ensures !Contains(r, '/')
    ensures |r| < |p| ==> p[|p| - |r| - 1] == '/'
  {
    if |p| == 0 || p[|p| - 1] == '/' then ""
    else LastSegment(p[..|p| - 1]) + [p[|p| - 1]]
  }

  /** `Path::new(p).file_name()` with `/` as the separator: trailing separators and `.`
      components are skipped; a path that ends in `..`, or has no normal component, has none. */
  function FileName(p: string): (r: Option<string>)
    ensures r.Some? ==> IsPlainComponent(r.value)
    decreases |p|
  {
    var t := TrimEndMatches(p, '/');
    if |t| == 0 then None
    else
      var last := LastSegment(t);
      if last == "." then FileName(t[..|t| - 1])
      else if last == ".." then None
      else Some(last)
  }

  /** A plain name is its own file name, also after a directory and with trailing separators. */
  lemma PlainNameIsFileName(dir: string, n: string)
    requires IsPlainComponent(n)
    ensures FileName(n) == Some(n)
    ensures FileName(dir + "/" + n) == Some(n)
    ensures FileName(dir + "/" + n + "/") == Some(n)
  {
    assert LastSegment(n) == n by { LastSegmentOfPlain("", n); }
    LastSegmentOfPlain(dir, n);
    var p := dir + "/" + n;
    assert TrimEndMatches(p + "/", '/') == TrimEndMatches(p, '/') by { TrimEndMatchesAppend(p, '/'); }
  }

  lemma {:induction false} LastSegmentOfPlain(dir: string, n: string)
    requires !Contains(n, '/')
    ensures LastSegment(n) == n
    ensures LastSegment(dir + "/" + n) == n
  {
    LastSegmentAfter("", n);
    LastSegmentAfter(dir + "/", n);
    assert "" + n == n;
  }

  /** What follows a path ending in `/` is its last segment, if it has no `/` itself. */
  lemma LastSegmentAfter(prefix: string, n: string)
    requires |prefix| == 0 || prefix[|prefix| - 1] == '/'
    requires !Contains(n, '/')
    ensures LastSegment(prefix + n) == n
  {
    var p := prefix + n;
    var r := LastSegment(p);
    assert forall i :: |prefix| <= i < |p| ==> p[i] == n[i - |prefix|] != '/';
    assert |prefix| > 0 ==> p[|prefix| - 1] == '/';
    assert forall i :: 0 <= i < |r| ==> r[i] == p[|p| - |r| + i] != '/';
    assert |r| == |n|;
    assert r == p[|prefix|..] == n;
  }

  /** Paths `Path::file_name` gives no name for: the empty path, a path of only separators,
      and a path whose last component is `..`, with or without trailing separators. For these
      `upload_file` fails with "Invalid file name". (A trailing `.` component is skipped, see
      DotComponentIsSkipped, so `.` and `dir/..//.` have no name either.) */
  lemma {:induction false} PathsWithoutFileName(dir: string, slashes: string)
    requires |dir| == 0 || dir[|dir| - 1] == '/'
    requires forall i :: 0 <= i < |slashes| ==> slashes[i] == '/'
    ensures FileName(slashes) == None
    ensures FileName(dir + ".." + slashes) == None
  {
    TrimEndMatchesAppendRun("", slashes, '/');
    assert "" + slashes == slashes;
    var p := dir + "..";
    TrimEndMatchesAppendRun(p, slashes, '/');
    assert TrimEndMatches(p, '/') == p by { assert !EndsWith(p, '/'); }
    assert !Contains("..", '/');
    LastSegmentAfter(dir, "..");
  }

  /** A final `.` component is skipped: `p/.` has the file name of `p/`, and `.` alone has
      none. */
  lemma DotComponentIsSkipped(p: string)
    ensures FileName(p + "/.") == FileName(p + "/")
    ensures FileName(".") == None
  {
    var q := p + "/.";
    assert TrimEndMatches(q, '/') == q by { assert !EndsWith(q, '/'); }
    assert !Contains(".", '/');
    LastSegmentAfter(p + "/", ".");
    assert p + "/" + "." == q;
    assert q[..|q| - 1] == p + "/";
    LastSegmentAfter("", ".");
    assert "" + "." == ".";
    assert TrimEndMatches(".", '/') == ".";
    assert "."[..0] == "";
  }

  /** The name choice of `upload_file`: a custom name that is not blank is used exactly as
      given; otherwise the local path's file name, and a path without one is an error. */
  function RemoteFileName(custom: Option<string>, filePath: string): (r: Result<string, string>)
    ensures custom.Some? && !IsBlank(custom.value) ==> r == Success(custom.value)
    ensures !(custom.Some? && !IsBlank(custom.value)) ==>
              && (r.Failure? <==> FileName(filePath).None?)
              && (r.Success? ==> r.value == FileName(filePath).value && IsPlainComponent(r.value))
    ensures r.Failure? ==> r.error == "Invalid file name"
  {
    if custom.Some? && !IsBlank(custom.value) then Success(custom.value)
    else
      match FileName(filePath)
      case Some(n) => Success(n)
      case None => Failure("Invalid file name")
  }

  /** The query parameters of the upload request, in order: `file_name` always first, then
      `tier` when one is given, then `epochs` when given. */
  function UploadParams(encodeSet: EncodeSet, fileName: string, tier: Option<string>, epochs: Option<u32>): (r: seq<string>)
    ensures |r| == 1 + (if tier.Some? then 1 else 0) + (if epochs.Some? then 1 else 0)
    ensures r[0] == "file_name=" + PercentEncode(encodeSet, Utf8(fileName))
    ensures tier.Some? ==> r[1] == "tier=" + PercentEncode(encodeSet, Utf8(tier.value))
    ensures epochs.Some? ==> r[|r| - 1] == "epochs=" + Decimal(epochs.value)
  {
    ["file_name=" + PercentEncode(encodeSet, Utf8(fileName))]
    + (if tier.Some? then ["tier=" + PercentEncode(encodeSet, Utf8(tier.value))] else [])
    + (if epochs.Some? then ["epochs=" + Decimal(epochs.value)] else [])
  }

  /** Builds the query the way `upload_file` does: a vector of parameters that is pushed to,
      then joined with `&`. */
  method BuildUploadQuery(fileName: string, tier: Option<string>, epochs: Option<u32>) returns (query: string)
    ensures query == Join(UploadParams(QueryEncodeSet, fileName, tier, epochs), '&')
    ensures StartsWith(query, "file_name=" + EncodeQueryValue(fileName))
  {
    var params := ["file_name=" + EncodeQueryValue(fileName)];
    if tier.Some? {
      params := params + ["tier=" + EncodeQueryValue(tier.value)];
    }
    if epochs.Some? {
      params := params + ["epochs=" + Decimal(epochs.value)];
    }
    assert params == UploadParams(QueryEncodeSet, fileName, tier, epochs);
    query := Join(params, '&');
  }

  datatype UploadTarget = UploadTarget(remoteName: string, url: string)

  /** The part of `upload_file` before the transfer: the file must exist, a name is chosen,
      and the URL is `<api base><upload path>?<query>`. Whether the file exists is an input. */
  method PrepareUpload(filePath: string, fileExists: bool, remoteFileName: Option<string>,
                       tier: Option<string>, epochs: Option<u32>, apiBase: string, uploadPath: string)
    returns (r: Result<UploadTarget, string>)
    ensures !fileExists ==> r == Failure("File not found: " + filePath)
    ensures fileExists ==> (r.Success? <==> RemoteFileName(remoteFileName, filePath).Success?)
    ensures fileExists && RemoteFileName(remoteFileName, filePath).Failure? ==> r == Failure("Invalid file name")
    ensures r.Success? ==>
              && r.value.remoteName == RemoteFileName(remoteFileName, filePath).value
              && r.value.url == apiBase + uploadPath + "?"
                                + Join(UploadParams(QueryEncodeSet, r.value.remoteName, tier, epochs), '&')
  {
    if !fileExists {
      return Failure("File not found: " + filePath);
    }
    var name := RemoteFileName(remoteFileName, filePath);
    if name.Failure? {
      return Failure(name.error);
    }
    var query := BuildUploadQuery(name.value, tier, epochs);
    r := Success(UploadTarget(name.value, apiBase + uploadPath + "?" + query));
  }

  /** `+` in a query value stands for a space (form encoding, section 5.1 of the WHATWG URL
      standard's application/x-www-form-urlencoded parser). */
  function PlusToSpace(s: string): (r: string)
    ensures !Contains(s, '+') ==> r == s
  {
    seq(|s|, i requires 0 <= i < |s| => if s[i] == '+' then ' ' else s[i])
  }

  /** The bytes a server reads as the `file_name` value of a query that starts with it:
      the query is split on `&`, the first piece loses its `file_name=` prefix, and the rest is
      form-decoded. */
  function ServerFileName(query: string): Option<seq<byte>>
  {
    var first := Split(query, '&')[0];
    if StartsWith(first, "file_name=") then Some(PercentDecode(PlusToSpace(first[10..])))
    else None
  }

  /** What the server reads back from the query built with `encodeSet`, given that the
      encoded name holds neither `&` nor `+`. */
  lemma ServerReadsEncodedName(encodeSet: EncodeSet, fileName: string, tier: Option<string>, epochs: Option<u32>)
    requires !Contains(PercentEncode(encodeSet, Utf8(fileName)), '&')
    requires !Contains(PercentEncode(encodeSet, Utf8(fileName)), '+')
    ensures ServerFileName(Join(UploadParams(encodeSet, fileName, tier, epochs), '&')) == Some(Utf8(fileName))
  {
    var params := UploadParams(encodeSet, fileName, tier, epochs);
    var enc := PercentEncode(encodeSet, Utf8(fileName));
    assert !Contains(params[0], '&') by {
      forall i | 0 <= i < |params[0]| ensures params[0][i] != '&' {
        if i >= 10 { assert params[0][i] == enc[i - 10]; }
      }
    }
    FirstPieceOfJoin(params, '&');
    assert params[0][10..] == enc;
    DecodeEncode(encodeSet, Utf8(fileName));
  }

  /** With the program's `QUERY_ENCODE_SET`, the server reads back every name that holds
      neither `&` nor `+`. (That a name with `&` can be cut short is shown for `a&b` by
      AmpersandCutsName.) */
  lemma {:induction false} QueryCarriesNameWithoutAmpersand(fileName: string, tier: Option<string>, epochs: Option<u32>)
    requires !Contains(fileName, '&') && !Contains(fileName, '+')
    ensures ServerFileName(Join(UploadParams(QueryEncodeSet, fileName, tier, epochs), '&')) == Some(Utf8(fileName))
  {
    var enc := PercentEncode(QueryEncodeSet, Utf8(fileName));
    if Contains(enc, '&') {
      EncodedCharComesFromByte(QueryEncodeSet, Utf8(fileName), '&');
      Utf8AsciiByte(fileName, '&');
    }
    if Contains(enc, '+') {
      EncodedCharComesFromByte(QueryEncodeSet, Utf8(fileName), '+');
      Utf8AsciiByte(fileName, '+');
    }
    ServerReadsEncodedName(QueryEncodeSet, fileName, tier, epochs);
  }

  /** As written, `&` is not escaped, so a name such as `a&b` reaches the server as `a`. */
  lemma AmpersandCutsName()
    ensures ServerFileName(Join(UploadParams(QueryEncodeSet, "a&b", None, None), '&')) == Some(Utf8("a"))
    ensures Utf8("a") != Utf8("a&b")
  {
    EncodeAmpersandName();
    var q := Join(UploadParams(QueryEncodeSet, "a&b", None, None), '&');
    assert q == "file_name=" + "a" + "&" + "b";
    ServerStopsAtAmpersand("a", "b");
    assert PercentDecode("a") == Utf8("a") by { assert "a"[1..] == ""; }
  }

  lemma EncodeAmpersandName()
    ensures Utf8("a&b") == [0x61, 0x26, 0x62]
    ensures PercentEncode(QueryEncodeSet, Utf8("a&b")) == "a&b"
  {
    assert Utf8("b") == [0x62] by { assert "b"[1..] == ""; }
    assert Utf8("&b") == [0x26, 0x62] by { assert "&b"[1..] == "b"; }
    assert Utf8("a&b") == [0x61, 0x26, 0x62] by { assert "a&b"[1..] == "&b"; }
    var bs: seq<byte> := [0x61, 0x26, 0x62];
    assert PercentEncode(QueryEncodeSet, bs[2..]) == "b";
    assert PercentEncode(QueryEncodeSet, bs[1..]) == "&b" by { assert bs[1..][1..] == bs[2..]; }
  }

  /** The server's `file_name` value ends at the first `&`, whatever follows it. */
  lemma ServerStopsAtAmpersand(value: string, rest: string)
    requires !Contains(value, '&') && !Contains(value, '+')
    ensures ServerFileName("file_name=" + value + "&" + rest) == Some(PercentDecode(value))
  {
    var first := "file_name=" + value;
    assert !Contains(first, '&') by {
      forall i | 0 <= i < |first| ensures first[i] != '&' {
        if i >= 10 { assert first[i] == value[i - 10]; }
      }
    }
    SplitPiece(first, '&', rest);
    assert first + ['&'] + rest == "file_name=" + value + "&" + rest;
    assert first[..10] == "file_name=";
    assert first[10..] == value;
  }

  /** With `&` and `+` also escaped, every name reaches the server unchanged. */
  lemma ComponentQueryCarriesAnyName(fileName: string, tier: Option<string>, epochs: Option<u32>)
    ensures ServerFileName(Join(UploadParams(QueryComponentSet, fileName, tier, epochs), '&')) == Some(Utf8(fileName))
  {
    EncodedAvoids(QueryComponentSet, Utf8(fileName), '&');
    EncodedAvoids(QueryComponentSet, Utf8(fileName), '+');
    ServerReadsEncodedName(QueryComponentSet, fileName, tier, epochs);
  }
}
