/** The decision and string helpers of the chat bot: who may use the image store,
    which upload URLs are accepted, and how a creature name is turned into a
    directory name. Configuration (`level0Accounts`, `level0Roles`,
    `allowed_image_urls`) is passed in explicitly. */
module Bot {

  /** A chat user, reduced to what the permission rule reads: the account id and the
      roles the user holds, each role given by its id. */
  datatype User = User(id: int, roles: seq<int>)

  /** `user_allowed_db`: an account on the list is always allowed; otherwise, unless
      only accounts count, the user is allowed when holding one of the listed roles. */
  method UserAllowedDb(level0Accounts: seq<int>, level0Roles: seq<int>, user: User, accountsOnly: bool)
    returns (allowed: bool)
    ensures user.id in level0Accounts ==> allowed
    ensures accountsOnly ==> (allowed <==> user.id in level0Accounts)
    ensures !accountsOnly ==>
      (allowed <==> user.id in level0Accounts
                    || exists k :: 0 <= k < |level0Roles| && level0Roles[k] in user.roles)
  {
    allowed := true;
    if user.id !in level0Accounts {
      if accountsOnly {
        return false;
      }
      allowed := false;
      var k := 0;
      while k < |level0Roles|
        invariant 0 <= k <= |level0Roles|
        invariant !allowed
        invariant forall j :: 0 <= j < k ==> level0Roles[j] !in user.roles
      {
        if level0Roles[k] in user.roles {
          allowed := true;
          break;
        }
        k := k + 1;
      }
    }
  }

  /** `needle` occurs in `haystack` starting at offset `at`. */
  predicate OccursAt(needle: string, haystack: string, at: int)
    requires 0 <= at <= |haystack| - |needle|
  {
    haystack[at..at + |needle|] == needle
  }

  /** `needle in haystack`: some offset holds an occurrence. */
  function IsSubstring(needle: string, haystack: string): (found: bool)
    ensures found ==> |needle| <= |haystack|
    ensures |needle| <= |haystack| && haystack[..|needle|] == needle ==> found
  {
    assert |needle| <= |haystack| && haystack[..|needle|] == needle ==> OccursAt(needle, haystack, 0);
    exists at :: 0 <= at <= |haystack| - |needle| && OccursAt(needle, haystack, at)
  }

  /** The allow-list test of `image_upload`: the URL is accepted when some allowed
      entry occurs anywhere inside it. */
  method UrlAllowed(allowedImageUrls: seq<string>, imageUrl: string) returns (urlAllowed: bool)
    ensures urlAllowed <==> exists k :: 0 <= k < |allowedImageUrls| && IsSubstring(allowedImageUrls[k], imageUrl)
    ensures allowedImageUrls == [] ==> !urlAllowed
  {
    urlAllowed := false;
    var k := 0;
    while k < |allowedImageUrls|
      invariant 0 <= k <= |allowedImageUrls|
      invariant !urlAllowed
      invariant forall j :: 0 <= j < k ==> !IsSubstring(allowedImageUrls[j], imageUrl)
    {
      if IsSubstring(allowedImageUrls[k], imageUrl) {
        urlAllowed := true;
        break;
      }
      k := k + 1;
    }
  }

  /** An allowed entry is accepted wherever it stands in the URL, so the test does not
      pin the URL's host: anything before or after the entry is let through. */
  lemma EmbeddedEntryAccepted(entry: string, before: string, after: string)
    ensures IsSubstring(entry, before + entry + after)
  {
    var url := before + entry + after;
    assert url[|before|..|before| + |entry|] == entry;
    assert OccursAt(entry, url, |before|);
  }

  /** An empty string on the allow-list accepts every URL. */
  lemma EmptyEntryAcceptsAll(imageUrl: string)
    ensures IsSubstring("", imageUrl)
  {
    assert OccursAt("", imageUrl, 0);
  }

  /** The characters Python's `str.strip()` removes: those for which `str.isspace()`
      holds, given by code point. */
  function IsWhitespace(c: char): (space: bool)
    ensures c == ' ' || c == '\t' || c == '\n' || c == '\r' ==> space
    ensures c == Replacement || c == '/' || c == '\\' || c == '.' ==> !space
  {
    var n := c as int;
    9 <= n <= 13 || 28 <= n <= 32 || n == 0x85 || n == 0xA0 || n == 0x1680
    || 0x2000 <= n <= 0x200A || n == 0x2028 || n == 0x2029 || n == 0x202F
    || n == 0x205F || n == 0x3000
  }

  /** The characters `image_upload` replaces, in the order it replaces them. */
  const Replaced: seq<char> := [' ', '/', '\\', '.']

  /** What each of them is replaced by. */
  const Replacement: char := '_'

  /** Removes leading whitespace. */
  function TrimStart(s: string): (r: string)
    ensures |r| <= |s| && r == s[|s| - |r|..]
    ensures forall i :: 0 <= i < |s| - |r| ==> IsWhitespace(s[i])
    ensures r != [] ==> !IsWhitespace(r[0])
  {
    if s != [] && IsWhitespace(s[0]) then TrimStart(s[1..]) else s
  }

  /** Removes trailing whitespace. */
  function TrimEnd(s: string): (r: string)
    ensures |r| <= |s| && r == s[..|r|]
    ensures forall i :: |r| <= i < |s| ==> IsWhitespace(s[i])
    ensures r != [] ==> !IsWhitespace(r[|r| - 1])
  {
    if s != [] && IsWhitespace(s[|s| - 1]) then TrimEnd(s[..|s| - 1]) else s
  }

  /** Python's `str.strip()` with no argument. */
  function Strip(s: string): (r: string)
    ensures r != [] ==> !IsWhitespace(r[0]) && !IsWhitespace(r[|r| - 1])
    ensures r == [] <==> forall i :: 0 <= i < |s| ==> IsWhitespace(s[i])
  {
    var t := TrimStart(s);
    var a := |s| - |t|;
    var r := TrimEnd(t);
    assert t == s[a..];
    assert r != [] ==> r[0] == t[0] == s[a] && !IsWhitespace(s[a]);
    assert r == [] ==> t == [] && a == |s|;
    r
  }

  /** What `Strip` keeps is the name with its outer whitespace cut off: a slice of
      the name with only whitespace before and after it. */
  lemma StripIsInfix(s: string)
    ensures exists a, b :: (0 <= a <= b <= |s| && Strip(s) == s[a..b]
                            && (forall i :: 0 <= i < a ==> IsWhitespace(s[i]))
                            && (forall i :: b <= i < |s| ==> IsWhitespace(s[i])))
  {
    var t := TrimStart(s);
    var a := |s| - |t|;
    var r := TrimEnd(t);
    assert t == s[a..] && r == t[..|r|];
    forall i | a + |r| <= i < |s| ensures IsWhitespace(s[i]) {
      assert s[i] == t[i - a];
    }
    assert Strip(s) == s[a..a + |r|];
  }

  /** Python's `s.replace(a, b)` for one-character `a` and `b`. */
  function ReplaceChar(s: string, from: char, to: char): (r: string)
    ensures |r| == |s|
    ensures forall i :: 0 <= i < |s| ==> r[i] == if s[i] == from then to else s[i]
  {
    if s == [] then []
    else [if s[0] == from then to else s[0]] + ReplaceChar(s[1..], from, to)
  }

  /** Whether `c` is among the first `k` replaced characters. */
  predicate ReplacedBefore(c: char, k: int)
  {
    exists j :: 0 <= j < k && j < |Replaced| && Replaced[j] == c
  }

  /** One character of the intended name. */
  function SanitiseChar(c: char): char
  {
    if c in Replaced then Replacement else c
  }

  /** The intended name: the stripped name with each replaced character turned into `_`. */
  function Sanitised(creature: string): string
  {
    var s := Strip(creature);
    seq(|s|, i requires 0 <= i < |s| => SanitiseChar(s[i]))
  }

  /** The sanitising steps of `image_upload`: strip, then replace each of the four
      characters in turn. */
  method SanitiseCreature(creature: string) returns (name: string)
    ensures name == Sanitised(creature)
  {
    var stripped := Strip(creature);
    name := stripped;
    for k := 0 to |Replaced|
      invariant |name| == |stripped|
      invariant forall i :: 0 <= i < |name| ==>
        name[i] == if ReplacedBefore(stripped[i], k) then Replacement else stripped[i]
    {
      var before := name;
      name := ReplaceChar(name, Replaced[k], Replacement);
      forall i | 0 <= i < |name|
        ensures name[i] == if ReplacedBefore(stripped[i], k + 1) then Replacement else stripped[i]
      {
        assert name[i] == if before[i] == Replaced[k] then Replacement else before[i];
      }
    }
    var want := Sanitised(creature);
    forall i | 0 <= i < |name| ensures name[i] == want[i] {
      assert want[i] == SanitiseChar(stripped[i]);
    }
  }

  /** A sanitised name keeps the stripped name's length, holds none of the replaced
      characters, and keeps every other character in its place. */
  lemma SanitisedShape(creature: string)
    ensures |Sanitised(creature)| == |Strip(creature)|
    ensures forall i :: 0 <= i < |Sanitised(creature)| ==> Sanitised(creature)[i] !in Replaced
    ensures forall i :: 0 <= i < |Strip(creature)| && Strip(creature)[i] !in Replaced ==>
      Sanitised(creature)[i] == Strip(creature)[i]
  {
  }

  /** A string without leading or trailing whitespace is left alone by `Strip`. */
  lemma StripKeepsTrimmed(s: string)
    requires s != [] ==> !IsWhitespace(s[0]) && !IsWhitespace(s[|s| - 1])
    ensures Strip(s) == s
  {
  }

  /** A sanitised name neither starts nor ends with whitespace, since `_` is not whitespace. */
  lemma SanitisedTrimmed(creature: string)
    ensures Sanitised(creature) != [] ==>
      !IsWhitespace(Sanitised(creature)[0]) && !IsWhitespace(Sanitised(creature)[|Sanitised(creature)| - 1])
  {
    var s := Strip(creature);
    var name := Sanitised(creature);
    assert !IsWhitespace(Replacement);
    if name != [] {
      assert name[0] == SanitiseChar(s[0]) && name[|name| - 1] == SanitiseChar(s[|s| - 1]);
    }
  }

  /** A name that stripping leaves alone and that holds none of the replaced
      characters is its own sanitised form. */
  lemma SanitiseFixes(name: string)
    requires Strip(name) == name
    requires forall i :: 0 <= i < |name| ==> name[i] !in Replaced
    ensures Sanitised(name) == name
  {
    var again := Sanitised(name);
    forall i | 0 <= i < |name| ensures again[i] == name[i] {
      assert again[i] == SanitiseChar(name[i]);
    }
  }

  /** Sanitising an already sanitised name changes nothing. */
  lemma SanitiseIdempotent(creature: string)
    ensures Sanitised(Sanitised(creature)) == Sanitised(creature)
  {
    var name := Sanitised(creature);
    SanitisedTrimmed(creature);
    StripKeepsTrimmed(name);
    SanitisedShape(creature);
    SanitiseFixes(name);
  }
}
