/** Image-name canonicalisation, the retag decision, stable deduplication and
    the set of node images a configuration requires. */
module Images {
  import opened Errors
  import Config

  const DefaultDomain := "docker.io/"
  const OfficialRepoName := "library"

  // ---------------------------------------------------------------------
  // String helpers with Go's meaning
  // ---------------------------------------------------------------------

  /** `strings.IndexRune`: the index of the first `c` in `s`, or -1. */
  function IndexRune(s: string, c: char): (i: int)
    ensures -1 <= i < |s|
    ensures i == -1 <==> c !in s
    ensures 0 <= i ==> s[i] == c && c !in s[..i]
  {
    if s == [] then -1
    else if s[0] == c then 0
    else
      var j := IndexRune(s[1..], c);
      assert s == [s[0]] + s[1..];
      if j == -1 then -1
      else
        assert s[..j + 1] == [s[0]] + s[1..][..j];
        j + 1
  }

  /** `strings.ContainsAny`: some character of `s` occurs in `chars`. */
  predicate ContainsAny(s: string, chars: string): (b: bool)
    ensures b <==> exists c :: c in chars && c in s
  {
    exists k :: 0 <= k < |s| && s[k] in chars
  }

  // ---------------------------------------------------------------------
  // sanitizeImage
  // ---------------------------------------------------------------------

  /** Step one: the implicit `library/` namespace for a name without `/`. */
  function WithOfficialRepo(image: string): string
  {
    if '/' !in image then OfficialRepoName + "/" + image else image
  }

  /** Step two: the default domain, unless the segment before the first `/`
      contains `.` or `:` or is `localhost`. */
  function WithDefaultDomain(name: string): string
  {
    var i := IndexRune(name, '/');
    if i == -1 || (!ContainsAny(name[..i], ".:") && name[..i] != "localhost")
    then DefaultDomain + name
    else name
  }

  /** Step three: the `:latest` tag, unless the name holds a `:` anywhere. */
  function WithLatestTag(name: string): string
  {
    if IndexRune(name, ':') == -1 then name + ":latest" else name
  }

  /** The canonical, registry- and tag-qualified form of an image name. */
  function SanitizeImage(image: string): (sanitizedName: string)
    ensures '/' in sanitizedName && ':' in sanitizedName
  {
    var withDomain := WithDefaultDomain(WithOfficialRepo(image));
    assert '/' in withDomain by { LiteralFacts(); }
    var r := WithLatestTag(withDomain);
    assert ':' in r by {
      if ':' !in withDomain {
        assert r[|withDomain|] == ':';
      }
    }
    r
  }

  /** The part of `s` before its first `/` (all of `s` if it has none). */
  function FirstSegment(s: string): string
  {
    if s == [] || s[0] == '/' then [] else [s[0]] + FirstSegment(s[1..])
  }

  /** A first path segment that the canonicaliser keeps as a registry host. */
  predicate IsRegistryHost(segment: string)
  {
    ContainsAny(segment, ".:") || segment == "localhost"
  }

  /** The namespace and domain prefix put in front of a name without `/`. */
  const LibraryPrefix := DefaultDomain + OfficialRepoName + "/"

  /** Reference definition of what the canonicaliser puts in front of a name. */
  function ImplicitPrefix(image: string): string
  {
    if '/' !in image then LibraryPrefix
    else if IsRegistryHost(FirstSegment(image)) then ""
    else DefaultDomain
  }

  /** Reference definition of what the canonicaliser puts after a name. */
  function ImplicitTag(image: string): string
  {
    if ':' in image then "" else ":latest"
  }

  lemma LiteralFacts()
    ensures '/' in DefaultDomain && ':' !in DefaultDomain
    ensures '/' !in OfficialRepoName && ':' !in OfficialRepoName
    ensures !IsRegistryHost(OfficialRepoName)
    ensures IsRegistryHost("docker.io")
    ensures DefaultDomain == "docker.io" + "/"
    ensures LibraryPrefix != "" && LibraryPrefix != DefaultDomain
  {
    assert DefaultDomain[9] == '/';
    assert "docker.io"[6] == '.';
    forall k | 0 <= k < |OfficialRepoName|
      ensures OfficialRepoName[k] !in ".:"
    {
    }
    assert |LibraryPrefix| != |DefaultDomain|;
  }

  lemma LibraryPrefixValue()
    ensures LibraryPrefix == "docker.io/library/"
  {
  }

  lemma {:induction false} FirstSegmentBeforeSlash(seg: string, rest: string)
    requires '/' !in seg
    ensures FirstSegment(seg + "/" + rest) == seg
  {
    if seg != [] {
      assert (seg + "/" + rest)[1..] == seg[1..] + "/" + rest;
      FirstSegmentBeforeSlash(seg[1..], rest);
      assert seg == [seg[0]] + seg[1..];
    }
  }

  lemma {:induction false} FirstSegmentIsIndexPrefix(s: string)
    requires '/' in s
    ensures FirstSegment(s) == s[..IndexRune(s, '/')]
  {
    if s[0] != '/' {
      assert s == [s[0]] + s[1..];
      FirstSegmentIsIndexPrefix(s[1..]);
      assert s[..IndexRune(s, '/')] == [s[0]] + s[1..][..IndexRune(s[1..], '/')];
    }
  }

  lemma {:induction false} FirstSegmentOfAppend(a: string, b: string)
    requires '/' in a
    ensures FirstSegment(a + b) == FirstSegment(a)
  {
    if a[0] != '/' {
      assert a == [a[0]] + a[1..];
      assert (a + b)[1..] == a[1..] + b;
      FirstSegmentOfAppend(a[1..], b);
    }
  }

  lemma DefaultDomainSegment(rest: string)
    ensures FirstSegment(DefaultDomain + rest) == "docker.io"
  {
    LiteralFacts();
    assert DefaultDomain + rest == "docker.io" + "/" + rest;
    FirstSegmentBeforeSlash("docker.io", rest);
  }

  lemma WithOfficialRepoSpec(image: string)
    ensures '/' in WithOfficialRepo(image)
    ensures '/' !in image ==> FirstSegment(WithOfficialRepo(image)) == OfficialRepoName
    ensures ':' in WithOfficialRepo(image) <==> ':' in image
  {
    LiteralFacts();
    if '/' !in image {
      FirstSegmentBeforeSlash(OfficialRepoName, image);
      assert WithOfficialRepo(image)[|OfficialRepoName|] == '/';
      assert ':' !in OfficialRepoName + "/";
    }
  }

  lemma WithDefaultDomainSpec(name: string)
    requires '/' in name
    ensures WithDefaultDomain(name) ==
      if IsRegistryHost(FirstSegment(name)) then name else DefaultDomain + name
  {
    FirstSegmentIsIndexPrefix(name);
  }

  lemma WithDomainIsPrefixed(image: string)
    ensures WithDefaultDomain(WithOfficialRepo(image)) == ImplicitPrefix(image) + image
  {
    var withRepo := WithOfficialRepo(image);
    WithOfficialRepoSpec(image);
    WithDefaultDomainSpec(withRepo);
    if '/' !in image {
      LiteralFacts();
      assert WithDefaultDomain(withRepo) == DefaultDomain + (OfficialRepoName + "/" + image);
    }
  }

  lemma ImplicitPrefixHasNoColon(image: string)
    ensures ':' !in ImplicitPrefix(image)
  {
    LiteralFacts();
    assert ':' !in OfficialRepoName + "/";
  }

  lemma WithLatestTagSpec(name: string)
    ensures WithLatestTag(name) == name + ImplicitTag(name)
  {
  }

  /** The canonical name is the input wrapped by the two reference parts:
      `docker.io/library/` exactly when the input has no `/`, nothing
      exactly when its first segment is a registry host, and `:latest`
      exactly when it has no `:` anywhere. */
  lemma SanitizeImageShape(image: string)
    ensures SanitizeImage(image) == ImplicitPrefix(image) + image + ImplicitTag(image)
    ensures ImplicitPrefix(image) == "" || ImplicitPrefix(image) == DefaultDomain ||
            ImplicitPrefix(image) == LibraryPrefix
    ensures ImplicitTag(image) == "" || ImplicitTag(image) == ":latest"
    ensures ImplicitPrefix(image) == LibraryPrefix <==> '/' !in image
    ensures ImplicitPrefix(image) == "" <==> '/' in image && IsRegistryHost(FirstSegment(image))
    ensures ImplicitTag(image) == ":latest" <==> ':' !in image
  {
    var withDomain := WithDefaultDomain(WithOfficialRepo(image));
    WithDomainIsPrefixed(image);
    ImplicitPrefixHasNoColon(image);
    WithLatestTagSpec(withDomain);
    assert ImplicitTag(withDomain) == ImplicitTag(image);
    LiteralFacts();
  }

  /** A name with a registry host and a `:` is already canonical. */
  lemma SanitizeImageFixes(name: string)
    requires '/' in name && ':' in name && IsRegistryHost(FirstSegment(name))
    ensures SanitizeImage(name) == name
  {
    SanitizeImageShape(name);
  }

  /** Canonicalising a canonical name changes nothing. */
  lemma SanitizeImageIdempotent(image: string)
    ensures SanitizeImage(SanitizeImage(image)) == SanitizeImage(image)
  {
    var r := SanitizeImage(image);
    assert '/' in r && ':' in r;
    assert IsRegistryHost(FirstSegment(r)) by {
      var tag := ImplicitTag(image);
      SanitizeImageShape(image);
      if ImplicitPrefix(image) == "" {
        assert r == image + tag;
        FirstSegmentOfAppend(image, tag);
      } else {
        var rest := r[|DefaultDomain|..];
        assert r == DefaultDomain + rest;
        DefaultDomainSegment(rest);
        LiteralFacts();
      }
    }
    SanitizeImageFixes(r);
  }

  lemma HostSegment(seg: string, rest: string)
    requires '/' !in seg
    ensures ImplicitPrefix(seg + "/" + rest) == if IsRegistryHost(seg) then "" else DefaultDomain
  {
    FirstSegmentBeforeSlash(seg, rest);
    assert (seg + "/" + rest)[|seg|] == '/';
  }

  // Examples. Each takes its name as a parameter so that the verifier reasons about it through the lemmas above rather than by
  // evaluating the definitions on a literal.

  lemma SanitizeBareName(image: string)
    requires image == "nginx"
    ensures SanitizeImage(image) == "docker.io/library/" + image + ":latest"
  {
    assert '/' !in image && ':' !in image by {
      forall k | 0 <= k < |image| ensures image[k] != '/' && image[k] != ':' { }
    }
    SanitizeImageShape(image);
    LibraryPrefixValue();
  }

  lemma SanitizeTaggedName(image: string)
    requires image == "nginx:1.19" || image == "nginx:latest"
    ensures SanitizeImage(image) == "docker.io/library/" + image
  {
    assert '/' !in image && ':' in image by {
      forall k | 0 <= k < |image| ensures image[k] != '/' { }
      assert image[5] == ':';
    }
    SanitizeImageShape(image);
    LibraryPrefixValue();
  }

  lemma SanitizeLocalhost(image: string)
    requires image == "localhost/foo"
    ensures SanitizeImage(image) == image + ":latest"
  {
    var host, path := image[..9], image[10..];
    assert image == host + "/" + path;
    forall k | 0 <= k < |host| ensures host[k] != '/' { }
    forall k | 0 <= k < |image| ensures image[k] != ':' { }
    assert host == "localhost";
    HostSegment(host, path);
    SanitizeImageShape(image);
  }

  lemma SanitizeDottedHost(image: string)
    requires image == "myregistry.example.com/foo"
    ensures SanitizeImage(image) == image + ":latest"
  {
    var host, path := image[..22], image[23..];
    assert image == host + "/" + path;
    forall k | 0 <= k < |host| ensures host[k] != '/' { }
    forall k | 0 <= k < |image| ensures image[k] != ':' { }
    assert host[10] == '.';
    HostSegment(host, path);
    SanitizeImageShape(image);
  }

  /** A port in the host counts as the `:` that suppresses `:latest`. */
  lemma SanitizeHostWithPort(image: string)
    requires image == "host:5000/foo"
    ensures SanitizeImage(image) == image
  {
    var host, path := image[..9], image[10..];
    assert image == host + "/" + path;
    forall k | 0 <= k < |host| ensures host[k] != '/' { }
    assert host[4] == ':';
    HostSegment(host, path);
    SanitizeImageShape(image);
  }

  // ---------------------------------------------------------------------
  // CheckIfImageReTagRequired
  // ---------------------------------------------------------------------

  /** What the tag fetcher returned for one node and image ID. */
  datatype TagFetch = TagFetch(tags: map<string, bool>, err: Option<Error>)

  /** The three results of the retag check. */
  datatype ReTagCheck = ReTagCheck(imageExists: bool, reTagRequired: bool, sanitizedImage: string)

  /** Go's map lookup: a missing key reads as `false`. */
  function TagBound(tags: map<string, bool>, name: string): (b: bool)
    ensures name !in tags ==> !b
    ensures name in tags ==> b == tags[name]
  {
    name in tags && tags[name]
  }

  /** Whether an image already on a node is missing the requested tag. */
  function CheckIfImageReTagRequired(fetched: TagFetch, imageName: string): (c: ReTagCheck)
    ensures !c.imageExists <==> |fetched.tags| == 0 || fetched.err.Some?
    ensures !c.imageExists ==> !c.reTagRequired && c.sanitizedImage == ""
    ensures c.imageExists ==> c.sanitizedImage == SanitizeImage(imageName)
    ensures c.imageExists ==> (c.reTagRequired <==> !TagBound(fetched.tags, SanitizeImage(imageName)))
  {
    if |fetched.tags| == 0 || fetched.err.Some? then
      ReTagCheck(false, false, "")
    else
      var sanitizedImage := SanitizeImage(imageName);
      if TagBound(fetched.tags, sanitizedImage) then
        ReTagCheck(true, false, sanitizedImage)
      else
        ReTagCheck(true, true, sanitizedImage)
  }

  /** Asking with a name or with its canonical form gives the same answer. */
  lemma ReTagCheckCanonicalInvariant(fetched: TagFetch, imageName: string)
    ensures CheckIfImageReTagRequired(fetched, SanitizeImage(imageName))
         == CheckIfImageReTagRequired(fetched, imageName)
  {
    SanitizeImageIdempotent(imageName);
  }

  /** Examples: with the canonical `nginx:1.19` tag bound, `nginx:1.19`
      needs no retag while `nginx:latest` needs one. */
  lemma ReTagCheckExamples(tagged: string, untagged: string)
    requires tagged == "nginx:1.19" && untagged == "nginx:latest"
    ensures var f := TagFetch(map["docker.io/library/" + tagged := true], None);
      CheckIfImageReTagRequired(f, tagged)
        == ReTagCheck(true, false, "docker.io/library/" + tagged) &&
      CheckIfImageReTagRequired(f, untagged)
        == ReTagCheck(true, true, "docker.io/library/" + untagged)
  {
    var key, other := "docker.io/library/" + tagged, "docker.io/library/" + untagged;
    var f := TagFetch(map[key := true], None);
    assert |f.tags| == 1;
    assert TagBound(f.tags, key);
    assert !TagBound(f.tags, other) by {
      assert |key| != |other|;
    }
    SanitizeTaggedName(tagged);
    SanitizeTaggedName(untagged);
  }

  // ---------------------------------------------------------------------
  // RemoveDuplicates
  // ---------------------------------------------------------------------

  /** No element occurs twice. */
  predicate NoDuplicates(s: seq<string>)
  {
    forall i, j :: 0 <= i < j < |s| ==> s[i] != s[j]
  }

  /** Reference definition: each element of `s` at its first occurrence. */
  function FirstOccurrences(s: seq<string>): seq<string>
  {
    if s == [] then []
    else
      var init, last := s[..|s| - 1], s[|s| - 1];
      if last in init then FirstOccurrences(init) else FirstOccurrences(init) + [last]
  }

  /** The position of the first occurrence of `x` in `s`. */
  function FirstIndex(s: seq<string>, x: string): (i: nat)
    requires x in s
    ensures i < |s| && s[i] == x && x !in s[..i]
  {
    if s[0] == x then 0
    else
      assert s == [s[0]] + s[1..];
      var j := FirstIndex(s[1..], x);
      assert s[..j + 1] == [s[0]] + s[1..][..j];
      j + 1
  }

  lemma FirstIndexUnique(s: seq<string>, i: int)
    requires 0 <= i < |s| && s[i] !in s[..i]
    ensures FirstIndex(s, s[i]) == i
  {
    var k := FirstIndex(s, s[i]);
  }

  /** `FirstOccurrences(s)` holds exactly the elements of `s`, each once,
      ordered by first occurrence, and is no longer than `s`. */
  lemma {:induction false} FirstOccurrencesSpec(s: seq<string>)
    ensures NoDuplicates(FirstOccurrences(s))
    ensures forall x :: x in FirstOccurrences(s) <==> x in s
    ensures |FirstOccurrences(s)| <= |s|
    ensures forall i, j :: 0 <= i < j < |FirstOccurrences(s)| ==>
      FirstIndex(s, FirstOccurrences(s)[i]) < FirstIndex(s, FirstOccurrences(s)[j])
  {
    if s != [] {
      var init, last := s[..|s| - 1], s[|s| - 1];
      assert s == init + [last];
      FirstOccurrencesSpec(init);
      var r0 := FirstOccurrences(init);
      var r := FirstOccurrences(s);
      forall x | x in init ensures FirstIndex(s, x) == FirstIndex(init, x) {
        var k := FirstIndex(init, x);
        assert s[..k] == init[..k];
        FirstIndexUnique(s, k);
      }
      forall i, j | 0 <= i < j < |r| ensures FirstIndex(s, r[i]) < FirstIndex(s, r[j]) {
        assert r[i] in r0;
        if j < |r0| {
          assert r[j] == r0[j];
        } else {
          assert last !in init && r[j] == last;
          assert s[..|init|] == init;
          FirstIndexUnique(s, |init|);
        }
      }
    }
  }

  /** A list without duplicates is its own deduplication. */
  lemma {:induction false} FirstOccurrencesOfDistinct(s: seq<string>)
    requires NoDuplicates(s)
    ensures FirstOccurrences(s) == s
  {
    if s != [] {
      var init := s[..|s| - 1];
      assert NoDuplicates(init);
      FirstOccurrencesOfDistinct(init);
      assert s[|s| - 1] !in init;
      assert s == init + [s[|s| - 1]];
    }
  }

  /** Deduplicating twice is deduplicating once. */
  lemma FirstOccurrencesIdempotent(s: seq<string>)
    ensures FirstOccurrences(FirstOccurrences(s)) == FirstOccurrences(s)
  {
    FirstOccurrencesSpec(s);
    FirstOccurrencesOfDistinct(FirstOccurrences(s));
  }

  /** Example: a list with two repeated elements. */
  lemma FirstOccurrencesExample()
    ensures FirstOccurrences(["a", "b", "a", "c", "b"]) == ["a", "b", "c"]
  {
    assert "a" != "b" && "c" != "b" && "c" != "a";
    assert ["a", "b"][..1] == ["a"];
    assert FirstOccurrences(["a", "b"]) == ["a", "b"];
    assert ["a", "b", "a"][..2] == ["a", "b"];
    assert FirstOccurrences(["a", "b", "a"]) == ["a", "b"];
    assert ["a", "b", "a", "c"][..3] == ["a", "b", "a"];
    assert FirstOccurrences(["a", "b", "a", "c"]) == ["a", "b", "c"];
    assert ["a", "b", "a", "c", "b"][..4] == ["a", "b", "a", "c"];
  }

  /** Stable first-occurrence deduplication, with a set of seen keys. */
  method RemoveDuplicates(slice: seq<string>) returns (result: seq<string>)
    ensures result == FirstOccurrences(slice)
    ensures NoDuplicates(result)
    ensures forall x :: x in result <==> x in slice
    ensures |result| <= |slice|
  {
    result := [];
    var seenKeys: set<string> := {};
    for i := 0 to |slice|
      invariant result == FirstOccurrences(slice[..i])
      invariant forall x :: x in seenKeys <==> x in slice[..i]
    {
      var k := slice[i];
      assert slice[..i + 1][..i] == slice[..i];
      assert slice[..i + 1] == slice[..i] + [k];
      if k !in seenKeys {
        result := result + [k];
        seenKeys := seenKeys + {k};
      }
    }
    assert slice[..|slice|] == slice;
    FirstOccurrencesSpec(slice);
  }

  // ---------------------------------------------------------------------
  // RequiredNodeImages
  // ---------------------------------------------------------------------

  /** The set of node images named by the configuration's nodes. */
  method RequiredNodeImages(cfg: Config.Cluster) returns (images: set<string>)
    ensures forall img :: img in images <==>
      exists i :: 0 <= i < |cfg.nodes| && cfg.nodes[i].image == img
  {
    images := {};
    for i := 0 to |cfg.nodes|
      invariant forall img :: img in images <==>
        exists j :: 0 <= j < i && cfg.nodes[j].image == img
    {
      images := images + {cfg.nodes[i].image};
    }
  }
}
