/** engine/engine.go: the collection name derived from a model path, and the
    `GoRagEngine` whose `Setup` validates the Qdrant address and connects. */
module Engine {
  import opened Common
  import opened Strings
  import opened GoPath
  import opened Model

  // ---------------------------------------------------------------------------
  // Collection naming (`getCollectionFromModel`)
  // ---------------------------------------------------------------------------

  /** The characters of the regular expression `[_\%\$\.]`. */
  predicate IsSpecial(c: char)
  {
    c == '_' || c == '%' || c == '$' || c == '.'
  }

  /** `ReplaceAllString(s, "-")` with that expression: every special character
      becomes '-', one for one, and every other character stays where it is. */
  function ReplaceSpecial(s: string): (r: string)
    ensures |r| == |s|
    ensures forall i :: 0 <= i < |s| ==> r[i] == (if IsSpecial(s[i]) then '-' else s[i])
  {
    if s == [] then [] else [if IsSpecial(s[0]) then '-' else s[0]] + ReplaceSpecial(s[1..])
  }

  lemma ReplaceSpecialExample(s: string)
    requires s == "foo_bar.Q4"
    ensures ReplaceSpecial(s) == "foo-bar-Q4"
  {
  }

  lemma ReplaceSpecialDot(s: string)
    requires s == "foo.bar"
    ensures ReplaceSpecial(s) == "foo-bar"
  {
  }

  /** The base name of the model path with the extension of the WHOLE path trimmed. */
  function Stem(model: string): string
  {
    TrimSuffix(Base(model), Ext(model))
  }

  /** `getCollectionFromModel`: the Qdrant collection that holds a model's vectors. */
  function CollectionFromModel(model: string): (collection: string)
    ensures |collection| == |Stem(model)|
    ensures forall i :: 0 <= i < |collection| ==> !IsSpecial(collection[i])
  {
    var stem := Stem(model);
    ReplaceSpecial(stem)
  }

  /** Replacement is one for one: each character of the collection name is the
      character of the stem at the same position, or '-' for a special one. */
  lemma CollectionPositions(model: string)
    ensures var c, stem := CollectionFromModel(model), Stem(model);
      && |c| == |stem|
      && forall i :: 0 <= i < |c| ==> c[i] == (if IsSpecial(stem[i]) then '-' else stem[i])
  {
  }

  /** A string free of special characters is left as it is. */
  lemma ReplaceSpecialFixes(s: string)
    requires forall i :: 0 <= i < |s| ==> !IsSpecial(s[i])
    ensures ReplaceSpecial(s) == s
  {
  }

  /** Only the last extension goes, together with the directory part: unless
      the path ends in '/', the base name is the stem followed by the extension,
      and that extension holds a single '.', at its start. */
  lemma StemAndExtension(model: string)
    requires model != "" && model[|model| - 1] != '/'
    ensures Base(model) == Stem(model) + Ext(model)
    ensures Ext(model) == "" || (Ext(model)[0] == '.' && '.' !in Ext(model)[1..])
  {
    ExtOfBase(model);
    var e := Ext(model);
    if e != "" {
      forall m | 0 <= m < |e| - 1
        ensures e[1..][m] != '.'
      {
        assert e[1..][m] == e[m + 1];
      }
    }
  }

  /** The extension comes from the whole path: when it ends in '/', nothing is
      trimmed from the base name. */
  lemma TrailingSlashKeepsExtension(model: string)
    requires model != "" && model[|model| - 1] == '/'
    ensures CollectionFromModel(model) == ReplaceSpecial(Base(model))
  {
    assert Ext(model) == "";
    assert Stem(model) == Base(model);
  }

  /** The stem is the base name or a prefix of it. */
  lemma StemOfBase(model: string)
    ensures |Stem(model)| <= |Base(model)| && Stem(model) == Base(model)[..|Stem(model)|]
  {
  }

  /** The stem of a path whose base name is "/" is "/": no extension ends it. */
  lemma StemWhenRoot(model: string)
    requires Base(model) == "/"
    ensures Stem(model) == "/"
  {
    var e := Ext(model);
    assert e == "" || e[0] == '.';
    assert !HasSuffix("/", e) || e == "";
  }

  /** A collection name is "/" or holds no '/'. */
  lemma CollectionShape(model: string)
    ensures var c := CollectionFromModel(model); c == "/" || '/' !in c
  {
    var b := Base(model);
    var s := Stem(model);
    var c := CollectionFromModel(model);
    if b == "/" {
      StemWhenRoot(model);
      ReplaceSpecialFixes(s);
    } else {
      StemOfBase(model);
      forall i | 0 <= i < |c|
        ensures c[i] != '/'
      {
        assert s[i] == b[i];
      }
    }
  }

  /** The empty model path names the collection "-": its base is ".". */
  lemma CollectionOfEmpty()
    ensures CollectionFromModel("") == "-"
  {
    assert Base("") == ".";
    assert Ext("") == "";
    assert Stem("") == ".";
  }

  lemma StemOfRoot(s: string)
    requires s == "/"
    ensures Stem(s) == s
  {
    BaseOfRoot();
  }

  /** The root path names the collection "/". */
  lemma CollectionOfRoot(s: string)
    requires s == "/"
    ensures CollectionFromModel(s) == s
  {
    StemOfRoot(s);
    ReplaceSpecialFixes(s);
  }

  lemma CollectionOfPlain(s: string)
    requires s != "" && forall i :: 0 <= i < |s| ==> s[i] != '/' && !IsSpecial(s[i])
    ensures CollectionFromModel(s) == s
  {
    BaseOfPlain(s);
    ExtOfDotless(s);
    assert Stem(s) == s;
    ReplaceSpecialFixes(s);
  }

  lemma CollectionOfUnfit(s: string, i: nat)
    requires s != "/" && i < |s| && (s[i] == '/' || IsSpecial(s[i]))
    ensures CollectionFromModel(s) != s
  {
    var c := CollectionFromModel(s);
    CollectionShape(s);
    if |c| == |s| && c != "/" {
      assert c[i] != s[i];
    }
  }

  /** The names `getCollectionFromModel` maps to themselves are exactly "/" and
      the non-empty strings without '/' and without a special character. */
  lemma CollectionFixedPoint(s: string)
    ensures CollectionFromModel(s) == s <==>
      s != "" && (s == "/" || forall i :: 0 <= i < |s| ==> s[i] != '/' && !IsSpecial(s[i]))
  {
    if s == "" {
      CollectionOfEmpty();
    } else if s == "/" {
      CollectionOfRoot(s);
    } else if forall i :: 0 <= i < |s| ==> s[i] != '/' && !IsSpecial(s[i]) {
      CollectionOfPlain(s);
    } else {
      var i :| 0 <= i < |s| && (s[i] == '/' || IsSpecial(s[i]));
      CollectionOfUnfit(s, i);
    }
  }

  /** Applying `getCollectionFromModel` to its own non-empty result changes nothing. */
  lemma CollectionIdempotent(model: string)
    requires CollectionFromModel(model) != ""
    ensures CollectionFromModel(CollectionFromModel(model)) == CollectionFromModel(model)
  {
    var c := CollectionFromModel(model);
    CollectionShape(model);
    CollectionFixedPoint(c);
  }

  /** A path that is all extension names the empty collection. */
  lemma CollectionOfExtensionOnly(p: string, ext: string)
    requires p == "." + ext && '.' !in ext && '/' !in ext
    ensures CollectionFromModel(p) == ""
  {
    assert p == "" + "." + ext;
    forall k | 0 <= k < |p|
      ensures p[k] != '/'
    {
      assert k == 0 || p[k] == ext[k - 1];
    }
    BaseOfPlain(p);
    ExtOfJoin("", ext);
  }

  /** Idempotence fails on an empty result: ".gguf" names the collection "",
      and "" names the collection "-". */
  lemma CollectionNotIdempotentOnEmpty(p: string)
    requires p == ".gguf"
    ensures CollectionFromModel(p) == ""
    ensures CollectionFromModel(CollectionFromModel(p)) == "-"
  {
    CollectionOfExtensionOnly(p, "gguf");
    CollectionOfEmpty();
  }

  lemma BaseOfPathWithExtension(dir: string, stem: string, ext: string)
    requires '/' !in stem && '.' !in ext && '/' !in ext
    ensures Base(dir + "/" + stem + "." + ext) == stem + "." + ext
  {
    assert dir + "/" + stem + "." + ext == dir + "/" + (stem + "." + ext);
    BaseOfJoin(dir, stem + "." + ext);
  }

  /** The stem of `dir/stem.ext` is `stem` when the extension holds no '.' or '/'. */
  lemma StemOfPathWithExtension(dir: string, stem: string, ext: string)
    requires '/' !in stem && '.' !in ext && '/' !in ext
    ensures Stem(dir + "/" + stem + "." + ext) == stem
  {
    BaseOfPathWithExtension(dir, stem, ext);
    ExtOfJoin(dir + "/" + stem, ext);
    assert stem + "." + ext == stem + ("." + ext);
    TrimAppended(stem, "." + ext);
  }

  /** `dir/stem.ext` names the collection made of `stem` alone, with `_ % $ .` as '-'. */
  lemma CollectionOfPathWithExtension(dir: string, stem: string, ext: string)
    requires '/' !in stem && '.' !in ext && '/' !in ext
    ensures CollectionFromModel(dir + "/" + stem + "." + ext) == ReplaceSpecial(stem)
  {
    StemOfPathWithExtension(dir, stem, ext);
  }

  lemma ExamplePath(model: string)
    requires model == "models/foo_bar.Q4.gguf"
    ensures model == "models" + "/" + "foo_bar.Q4" + "." + "gguf"
  {
  }

  /** "models/foo_bar.Q4.gguf" names the collection "foo-bar-Q4": the directory
      and the last extension go, and `_` and the remaining '.' become '-'. */
  lemma CollectionExample(model: string)
    requires model == "models/foo_bar.Q4.gguf"
    ensures CollectionFromModel(model) == "foo-bar-Q4"
  {
    ExamplePath(model);
    CollectionOfPathWithExtension("models", "foo_bar.Q4", "gguf");
    ReplaceSpecialExample("foo_bar.Q4");
  }

  /** When the path ends in '/', the base keeps its extension: "m/foo.bar/" names "foo-bar". */
  lemma CollectionTrailingSlashExample(model: string)
    requires model == "m/foo.bar/"
    ensures CollectionFromModel(model) == "foo-bar"
  {
    assert model == "m" + "/" + "foo.bar" + "/";
    BaseOfJoinSlash("m", "foo.bar");
    TrailingSlashKeepsExtension(model);
    ReplaceSpecialDot("foo.bar");
  }

  // ---------------------------------------------------------------------------
  // The engine and its setup (`NewEngine`, `Setup`, `getEmbeddings`)
  // ---------------------------------------------------------------------------

  /** What `Setup` is configured with. */
  datatype EngineOptions = EngineOptions(qdrantUri: string, embedServer: string, llamaServer: string)

  /** The error `Setup` returns for a Qdrant address that is not `HOST:PORT`. */
  function UriFormatError(uri: string): Error
  {
    Error("invalid QdrantUri format: got '" + uri + "', want 'HOST:PORT'")
  }

  /** The address `Setup` accepts splits on ':' into exactly two parts. */
  predicate WellFormedUri(uri: string)
  {
    |Split(uri, ':')| == 2
  }

  /** An address is accepted exactly when it holds a single ':'. */
  lemma WellFormedUriIffOneColon(uri: string)
    ensures WellFormedUri(uri) <==> Count(uri, ':') == 1
  {
    SplitCount(uri, ':');
  }

  lemma ColonCountExamples(uri: string)
    requires uri in {"host", "a:b:c", "http://localhost:6333"}
    ensures Count(uri, ':') != 1
  {
    if uri == "host" {
      CountAbsent(uri, ':');
    } else if uri == "a:b:c" {
      CountTwo(uri, ':', 1, 3);
    } else {
      CountTwo(uri, ':', 4, 16);
    }
  }

  /** A host alone, three parts, and the URL form with its scheme are all refused. */
  lemma MalformedUriExamples(uri: string)
    requires uri in {"host", "a:b:c", "http://localhost:6333"}
    ensures !WellFormedUri(uri)
  {
    ColonCountExamples(uri);
    WellFormedUriIffOneColon(uri);
  }

  /** The warm-up text `Setup` embeds once the client exists. */
  const WarmUpInput: string := "serominers seroclevers serowonders seropizza"

  /** `GoRagEngine`: the Qdrant client and the two server addresses. */
  class GoRagEngine {
    var QdrantClient: Option<Client>
    var EmbedServer: string
    var LlamaServer: string

    /** `NewEngine`: no client yet; the addresses hold Go's zero value. */
    constructor ()
      ensures QdrantClient == None && EmbedServer == "" && LlamaServer == ""
    {
      QdrantClient := None;
      EmbedServer := "";
      LlamaServer := "";
    }

    /** `Setup`: records the embedding server, then checks the Qdrant address
        and connects. `parsePort` stands for the discarded-error
        `strconv.ParseInt(port, 10, 1)`, `newClient` for `qdrant.NewClient`. */
    method Setup<F>(options: EngineOptions, parsePort: string -> int,
                    newClient: ClientConfig -> Result<Client>, fetch: EmbedFetch<F>)
      returns (err: Option<Error>)
      modifies this
      ensures EmbedServer == options.embedServer
      ensures LlamaServer == old(LlamaServer)
      ensures !WellFormedUri(options.qdrantUri) ==>
        err == Some(UriFormatError(options.qdrantUri)) && QdrantClient == old(QdrantClient)
      ensures WellFormedUri(options.qdrantUri) ==>
        var parts := Split(options.qdrantUri, ':');
        var created := newClient(ClientConfig(parts[0], parsePort(parts[1])));
        && QdrantClient == (if created.Success? then Some(created.value) else None)
        && err == ErrorOf(created)
    {
      EmbedServer := options.embedServer;

      var a := Split(options.qdrantUri, ':');
      if |a| != 2 {
        return Some(UriFormatError(options.qdrantUri));
      }

      var qdrantHost := a[0];
      var qdrantPort := parsePort(a[1]);
      var created := newClient(ClientConfig(qdrantHost, qdrantPort));
      QdrantClient := if created.Success? then Some(created.value) else None;
      if created.Failure? {
        return Some(created.error);
      }

      // The warm-up result is only logged.
      var warmUp := GetEmbeddings(WarmUpInput, fetch);
      return None;
    }

    /** `getEmbeddings`: posts `input` to `<EmbedServer>/v1/embeddings` and
        reports only whether that failed; the decoded response is discarded. */
    method GetEmbeddings<F>(input: string, fetch: EmbedFetch<F>) returns (err: Option<Error>)
      ensures var response := fetch(EmbedServer + "/v1/embeddings", EmbedRequest(input));
        err.None? <==> response.Success?
      ensures var response := fetch(EmbedServer + "/v1/embeddings", EmbedRequest(input));
        response.Failure? ==> err == Some(response.error)
    {
      var response := fetch(EmbedServer + "/v1/embeddings", EmbedRequest(input));
      if response.Failure? {
        return Some(response.error);
      }
      return None;
    }
  }
}
