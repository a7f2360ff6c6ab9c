/** Chapter-image resolution (`get_pages` and `abs` of `BatoToParser`, in both the package parser
    and the root-level copy, whose logic is the same).

    The page's scripts are walked in document order. The first one that contains the marker
    `const imgHttps =`, whose `imgHttps` array literal is found, and whose `batoPass` and
    `batoWord` assignments are found, decides the outcome: the password expression goes to the
    JavaScript evaluator, the word is decrypted with it, and the decrypted JSON array of query
    strings is zipped by position with the image URLs.

    The three regular expressions are written out as explicit scanning, with Python's
    leftmost-match rule for `re.search`. The evaluator, base64, JSON, SHA-1 and URL joining are
    function-valued parameters; fetching the page and picking out its `<script>` texts is one
    more. */
module Pages {
  import opened Wrappers
  import opened Text
  import Payload

  /** The text a script must contain to be examined at all. */
  const ImgHttpsMarker: string := "const imgHttps ="

  /** The quote characters stripped from both ends of the `batoWord` literal. */
  const Quotes: set<char> := {'\'', '"'}

  datatype MangaPage = MangaPage(id: string, url: string, preview: Option<string>)

  /** The collaborators `get_pages` calls but does not define. */
  datatype Context = Context(
    /** `http_get` of the URL, then the text of each `<script>` element in document order
        (`script.string or ""`). */
    fetchScripts: string -> seq<string>,
    /** `ctx.evaluate_js`: `None` when the evaluator produced nothing. */
    evaluateJs: string -> Option<string>,
    /** `ctx.decode_base64`: `None` when the decoder raises. */
    decodeBase64: string -> Option<seq<Payload.byte>>,
    /** `json.loads` of a JSON array of strings: `None` when it raises. */
    parseJsonStrings: string -> Option<seq<string>>,
    /** `generate_uid`: the SHA-1 hex digest of the URL. */
    sha1Hex: string -> string,
    /** `urllib.parse.urljoin` */
    urlJoin: (string, string) -> string,
    crypto: Payload.Crypto)

  /** What `get_pages` can raise. */
  datatype PageError =
    | ImagesNotFound                          // RuntimeError: no script qualified
    | PasswordUnavailable                     // RuntimeError: the evaluator returned None
    | InvalidJson                             // json.loads raised
    | ArgsIndexOutOfRange                     // IndexError: fewer query strings than images
    | DecryptFailed(cause: Payload.DecryptError)

  // ----- abs ---------------------------------------------------------------------------------

  /** `abs(path)`: a path starting with `http` is kept, anything else is joined onto the site. */
  function Abs(domain: string, path: string, urlJoin: (string, string) -> string): (r: string)
    ensures StartsWith(path, "http") ==> r == path
    ensures !StartsWith(path, "http") ==> r == urlJoin("https://" + domain, path)
  {
    if StartsWith(path, "http") then path else urlJoin("https://" + domain, path)
  }

  /** Resolving an already resolved URL changes nothing, as long as the join yields a URL
      starting with `http`. */
  lemma AbsIdempotent(domain: string, path: string, urlJoin: (string, string) -> string)
    requires StartsWith(urlJoin("https://" + domain, path), "http")
    ensures Abs(domain, Abs(domain, path, urlJoin), urlJoin) == Abs(domain, path, urlJoin)
  {
  }

  // ----- regular expressions as scanning -----------------------------------------------------

  /** Every character of `s[a..b]` is whitespace. Written as a recursion, so that the solver
      unfolds it only on demand; AllSpaceIsEvery states it character by character. */
  predicate AllSpace(s: string, a: nat, b: nat)
    requires a <= b <= |s|
    decreases b - a
  {
    a == b || (IsSpace(s[a]) && AllSpace(s, a + 1, b))
  }

  lemma {:induction false} AllSpaceIsEvery(s: string, a: nat, b: nat)
    requires a <= b <= |s|
    ensures AllSpace(s, a, b) <==> forall k :: a <= k < b ==> IsSpace(s[k])
    decreases b - a
  {
    if a < b {
      AllSpaceIsEvery(s, a + 1, b);
    }
  }

  /** The length of the run of whitespace (`\s`) that starts at `i`. */
  function SpaceRun(s: string, i: nat): (n: nat)
    requires i <= |s|
    ensures i + n <= |s| && AllSpace(s, i, i + n)
    ensures i + n == |s| || !IsSpace(s[i + n])
    decreases |s| - i
  {
    if i < |s| && IsSpace(s[i]) then 1 + SpaceRun(s, i + 1) else 0
  }

  function Min(a: int, b: int): int {
    if a <= b then a else b
  }

  /** The two regular expressions `get_pages` searches with. */
  datatype Pattern =
    | ImgHttpsArray           // const\s+imgHttps\s*=\s*(\[[^\]]*\])
    | Assignment(name: string) // <name>\s*=\s*([^;]+);

  /** `\[[^\]]*\]` at index `o`: from the `[` to the first `]` after it. There is no match
      when `o` holds no `[` or no `]` follows it. */
  function BracketedAt(s: string, o: nat): (g: Option<string>)
    requires o <= |s|
    ensures g.None? <==> o == |s| || s[o] != '[' || forall k :: o < k < |s| ==> s[k] != ']'
    ensures g.Some? ==> OccursAt(s, g.value, o)
    ensures g.Some? ==> var v := g.value; 2 <= |v| && v[0] == '[' && v[|v| - 1] == ']'
    ensures g.Some? ==> forall k :: 0 <= k < |g.value| - 1 ==> g.value[k] != ']'
  {
    if o == |s| || s[o] != '[' then None
    else
      match FindFirst(s, {']'}, o + 1)
      case None => None
      case Some(c) => Some(s[o..c + 1])
  }

  /** `const\s+imgHttps\s*=\s*(\[[^\]]*\])` tried at exactly index `i`: `const`, at least one
      whitespace character, `imgHttps`, optional whitespace, `=`, optional whitespace, and then
      group 1, which runs from the `[` to the first `]` after it. */
  function ImgHttpsArrayAt(s: string, i: nat): (g: Option<string>)
    requires i <= |s|
    ensures g.Some? ==> OccursAt(s, "const", i) && i + 5 < |s| && IsSpace(s[i + 5])
    ensures g.Some? ==> var v := g.value; 2 <= |v| && v[0] == '[' && v[|v| - 1] == ']'
  {
    match ImgHttpsGroupStart(s, i)
    case None => None
    case Some(o) => BracketedAt(s, o)
  }

  /** Where group 1 of the `imgHttps` pattern would begin at `i`: past `const\s+imgHttps`
      and the `\s*=\s*` after it. Each whitespace run is taken whole. */
  function ImgHttpsGroupStart(s: string, i: nat): (o: Option<nat>)
    requires i <= |s|
    ensures o.Some? ==> o.value <= |s|
    ensures o.Some? ==> OccursAt(s, "const", i) && i + 5 < |s| && IsSpace(s[i + 5])
  {
    if !OccursAt(s, "const", i) then None else NamedFrom(s, i + 5)
  }

  /** `\s+imgHttps\s*=\s*` tried at exactly index `a`: where the text after it begins. */
  function NamedFrom(s: string, a: nat): (o: Option<nat>)
    requires a <= |s|
    ensures o.Some? ==> o.value <= |s| && a < |s| && IsSpace(s[a])
  {
    var w := SpaceRun(s, a);
    if w == 0 || !OccursAt(s, "imgHttps", a + w) then None
    else AssignedFrom(s, a + w + 8)
  }

  /** `\s*=\s*` tried at exactly index `b`: where the text after it begins. */
  function AssignedFrom(s: string, b: nat): (o: Option<nat>)
    requires b <= |s|
    ensures o.Some? ==> o.value <= |s|
  {
    var e := b + SpaceRun(s, b);
    if e == |s| || s[e] != '=' then None
    else Some(e + 1 + SpaceRun(s, e + 1))
  }

  /** `<name>\s*=\s*([^;]+);` tried at exactly index `i`. The value needs at least one character
      before the first `;` after the `=`; the greedy `\s*` gives back its last whitespace
      character when nothing else is left for `[^;]+`. */
  function AssignmentAt(s: string, name: string, i: nat): (g: Option<string>)
    requires i <= |s|
    ensures g.Some? ==> g.value != [] && forall k :: 0 <= k < |g.value| ==> g.value[k] != ';'
    ensures g.Some? ==> OccursAt(s, name, i)
  {
    if !OccursAt(s, name, i) then None
    else
      var e := i + |name| + SpaceRun(s, i + |name|);
      if e == |s| || s[e] != '=' then None
      else
        var v := e + 1;
        match FindFirst(s, {';'}, v)
        case None => None
        case Some(c) =>
          if c == v then None
          else Some(ValueBefore(s, v, c))
  }

  /** `\s*([^;]+)` between `v` and the `;` at `c`: the text before `c` without the whitespace in
      front of it, or the last whitespace character when there is nothing else. */
  function ValueBefore(s: string, v: nat, c: nat): (t: string)
    requires v < c <= |s|
    ensures t != [] && v + |t| <= c && t == s[c - |t|..c]
    ensures forall k :: v <= k < c - |t| ==> IsSpace(s[k])
    ensures |t| > 1 ==> !IsSpace(t[0])
  {
    AllSpaceIsEvery(s, v, v + SpaceRun(s, v));
    var start := v + Min(SpaceRun(s, v), c - v - 1);
    assert start < c - 1 ==> s[start..c][0] == s[start];
    s[start..c]
  }

  /** A whitespace run followed by a character that is not whitespace is the whole run. */
  lemma {:induction false} SpaceRunWhole(s: string, a: nat, w: nat)
    requires a + w < |s| && AllSpace(s, a, a + w) && !IsSpace(s[a + w])
    ensures SpaceRun(s, a) == w
    decreases w
  {
    if w > 0 {
      SpaceRunWhole(s, a + 1, w - 1);
    }
  }

  /** `const\s+imgHttps\s*=\s*` at `i` with runs of `w1 >= 1`, `w2` and `w3` whitespace
      characters: `const`, the first run, `imgHttps`, the second run, `=`, the third run. */
  predicate ImgHttpsPrefix(s: string, i: nat, w1: nat, w2: nat, w3: nat) {
    i + 5 + w1 + 8 + w2 + 1 + w3 <= |s| && w1 >= 1
    && OccursAt(s, "const", i) && AllSpace(s, i + 5, i + 5 + w1)
    && OccursAt(s, "imgHttps", i + 5 + w1) && AllSpace(s, i + 5 + w1 + 8, i + 5 + w1 + 8 + w2)
    && s[i + 5 + w1 + 8 + w2] == '='
    && AllSpace(s, i + 5 + w1 + 8 + w2 + 1, i + 5 + w1 + 8 + w2 + 1 + w3)
  }

  /** One way `const\s+imgHttps\s*=\s*(\[[^\]]*\])` can match at `i`: the prefix above with
      these runs, then a bracketed literal. */
  predicate ImgHttpsSplit(s: string, i: nat, w1: nat, w2: nat, w3: nat) {
    ImgHttpsPrefix(s, i, w1, w2, w3) && BracketedAt(s, i + 5 + w1 + 8 + w2 + 1 + w3).Some?
  }

  /** Whichever whitespace runs the regular expression settles on, group 1 is the bracketed
      literal after them, and that is what ImgHttpsArrayAt returns. */
  lemma ImgHttpsArrayAtMatches(s: string, i: nat, w1: nat, w2: nat, w3: nat)
    requires ImgHttpsSplit(s, i, w1, w2, w3)
    ensures ImgHttpsArrayAt(s, i) == BracketedAt(s, i + 5 + w1 + 8 + w2 + 1 + w3)
  {
    ImgHttpsRunsWhole(s, i, w1, w2, w3);
    ImgHttpsGroupRuns(s, i, w1, w2, w3);
    ArrayAtGroup(s, i, w1, w2, w3);
  }

  /** The runs of a split are whole: the characters after them (`i`, `=` and `[`) are not
      whitespace. So a match splits in one way only. */
  lemma ImgHttpsRunsWhole(s: string, i: nat, w1: nat, w2: nat, w3: nat)
    requires ImgHttpsSplit(s, i, w1, w2, w3)
    ensures SpaceRun(s, i + 5) == w1
    ensures SpaceRun(s, i + 5 + w1 + 8) == w2
    ensures SpaceRun(s, i + 5 + w1 + 8 + w2 + 1) == w3
  {
    FirstRunWhole(s, i, w1);
    SecondRunWhole(s, i, w1, w2);
    ThirdRunWhole(s, i, w1, w2, w3);
  }

  /** The run after `const` ends where `imgHttps` begins. */
  lemma FirstRunWhole(s: string, i: nat, w1: nat)
    requires i + 5 + w1 + 8 <= |s| && AllSpace(s, i + 5, i + 5 + w1)
    requires OccursAt(s, "imgHttps", i + 5 + w1)
    ensures SpaceRun(s, i + 5) == w1
  {
    assert s[i + 5 + w1] == s[i + 5 + w1..i + 5 + w1 + 8][0] == 'i';
    assert !IsSpace('i');
    SpaceRunWhole(s, i + 5, w1);
  }

  /** The run after `imgHttps` ends at the `=`. */
  lemma SecondRunWhole(s: string, i: nat, w1: nat, w2: nat)
    requires i + 5 + w1 + 8 + w2 < |s| && AllSpace(s, i + 5 + w1 + 8, i + 5 + w1 + 8 + w2)
    requires s[i + 5 + w1 + 8 + w2] == '='
    ensures SpaceRun(s, i + 5 + w1 + 8) == w2
  {
    assert !IsSpace('=');
    SpaceRunWhole(s, i + 5 + w1 + 8, w2);
  }

  /** The run after the `=` ends at the `[` of the literal. */
  lemma ThirdRunWhole(s: string, i: nat, w1: nat, w2: nat, w3: nat)
    requires i + 5 + w1 + 8 + w2 + 1 + w3 <= |s|
    requires AllSpace(s, i + 5 + w1 + 8 + w2 + 1, i + 5 + w1 + 8 + w2 + 1 + w3)
    requires BracketedAt(s, i + 5 + w1 + 8 + w2 + 1 + w3).Some?
    ensures SpaceRun(s, i + 5 + w1 + 8 + w2 + 1) == w3
  {
    assert s[i + 5 + w1 + 8 + w2 + 1 + w3] == '[';
    assert !IsSpace('[');
    SpaceRunWhole(s, i + 5 + w1 + 8 + w2 + 1, w3);
  }

  /** Where group 1 begins once the length of each whitespace run is known. */
  lemma ImgHttpsGroupRuns(s: string, i: nat, w1: nat, w2: nat, w3: nat)
    requires i + 5 + w1 + 8 + w2 + 1 + w3 <= |s| && w1 >= 1
    requires OccursAt(s, "const", i) && SpaceRun(s, i + 5) == w1
    requires OccursAt(s, "imgHttps", i + 5 + w1) && SpaceRun(s, i + 5 + w1 + 8) == w2
    requires s[i + 5 + w1 + 8 + w2] == '=' && SpaceRun(s, i + 5 + w1 + 8 + w2 + 1) == w3
    ensures ImgHttpsGroupStart(s, i) == Some(i + 5 + w1 + 8 + w2 + 1 + w3)
  {
    GroupConst(s, i);
    GroupHeadRun(s, i + 5, w1);
    AssignedRuns(s, i, w1, w2, w3);
    calc {
      ImgHttpsGroupStart(s, i);
      NamedFrom(s, i + 5);
      AssignedFrom(s, i + 5 + w1 + 8);
      Some(i + 5 + w1 + 8 + w2 + 1 + w3);
    }
  }

  /** After `const`, group 1 begins where `\s+imgHttps\s*=\s*` leads. */
  lemma GroupConst(s: string, i: nat)
    requires i + 5 <= |s| && OccursAt(s, "const", i)
    ensures ImgHttpsGroupStart(s, i) == NamedFrom(s, i + 5)
  {
  }

  /** Group 1 is the bracketed literal where it begins. */
  lemma ArrayAtGroup(s: string, i: nat, w1: nat, w2: nat, w3: nat)
    requires i + 5 + w1 + 8 + w2 + 1 + w3 <= |s|
    requires ImgHttpsGroupStart(s, i) == Some(i + 5 + w1 + 8 + w2 + 1 + w3)
    ensures ImgHttpsArrayAt(s, i) == BracketedAt(s, i + 5 + w1 + 8 + w2 + 1 + w3)
  {
  }

  /** A run of `w1` whitespace characters and `imgHttps` lead on to `\s*=\s*`. */
  lemma GroupHeadRun(s: string, a: nat, w1: nat)
    requires a + w1 + 8 <= |s| && w1 >= 1
    requires SpaceRun(s, a) == w1 && OccursAt(s, "imgHttps", a + w1)
    ensures NamedFrom(s, a) == AssignedFrom(s, a + w1 + 8)
  {
    GroupHead(s, a);
  }

  /** A whitespace run and `imgHttps` lead on to `\s*=\s*`. */
  lemma GroupHead(s: string, a: nat)
    requires a <= |s| && SpaceRun(s, a) > 0 && OccursAt(s, "imgHttps", a + SpaceRun(s, a))
    ensures NamedFrom(s, a) == AssignedFrom(s, a + SpaceRun(s, a) + 8)
  {
  }

  /** `\s*=\s*` once the lengths of its two whitespace runs are known. */
  lemma AssignedRuns(s: string, i: nat, w1: nat, w2: nat, w3: nat)
    requires i + 5 + w1 + 8 + w2 + 1 + w3 <= |s|
    requires SpaceRun(s, i + 5 + w1 + 8) == w2 && s[i + 5 + w1 + 8 + w2] == '='
    requires SpaceRun(s, i + 5 + w1 + 8 + w2 + 1) == w3
    ensures AssignedFrom(s, i + 5 + w1 + 8) == Some(i + 5 + w1 + 8 + w2 + 1 + w3)
  {
  }

  /** Conversely, every match at `i` comes from a split of the text, and group 1 is the
      bracketed literal after it. */
  lemma ImgHttpsArrayAtSplits(s: string, i: nat)
    requires i <= |s| && ImgHttpsArrayAt(s, i).Some?
    ensures exists w1: nat, w2: nat, w3: nat :: ImgHttpsSplit(s, i, w1, w2, w3)
              && ImgHttpsArrayAt(s, i) == BracketedAt(s, i + 5 + w1 + 8 + w2 + 1 + w3)
  {
    ArrayAtGroupSome(s, i);
    var w1, w2, w3 := PrefixOfGroup(s, i);
    ArrayAtGroup(s, i, w1, w2, w3);
    assert ImgHttpsSplit(s, i, w1, w2, w3);
  }

  /** A match needs a place where group 1 begins. */
  lemma ArrayAtGroupSome(s: string, i: nat)
    requires i <= |s| && ImgHttpsArrayAt(s, i).Some?
    ensures ImgHttpsGroupStart(s, i).Some?
  {
  }

  /** The runs that lead to where group 1 begins. */
  lemma PrefixOfGroup(s: string, i: nat) returns (w1: nat, w2: nat, w3: nat)
    requires i <= |s| && ImgHttpsGroupStart(s, i).Some?
    ensures ImgHttpsPrefix(s, i, w1, w2, w3)
    ensures ImgHttpsGroupStart(s, i) == Some(i + 5 + w1 + 8 + w2 + 1 + w3)
  {
    w1 := GroupSome(s, i);
    w2, w3 := AssignedSome(s, i, w1);
    ImgHttpsGroupRuns(s, i, w1, w2, w3);
    PrefixOfRuns(s, i, w1, w2, w3);
  }

  /** What `const\s+imgHttps` needs of the text when group 1 has a start. */
  lemma GroupSome(s: string, i: nat) returns (w1: nat)
    requires i <= |s| && ImgHttpsGroupStart(s, i).Some?
    ensures i + 5 + w1 + 8 <= |s| && w1 == SpaceRun(s, i + 5) && w1 > 0
    ensures OccursAt(s, "const", i) && OccursAt(s, "imgHttps", i + 5 + w1)
    ensures AssignedFrom(s, i + 5 + w1 + 8).Some?
  {
    w1 := SpaceRun(s, i + 5);
  }

  /** What `\s*=\s*` needs of the text when it matches. */
  lemma AssignedSome(s: string, i: nat, w1: nat) returns (w2: nat, w3: nat)
    requires i + 5 + w1 + 8 <= |s| && AssignedFrom(s, i + 5 + w1 + 8).Some?
    ensures i + 5 + w1 + 8 + w2 + 1 + w3 <= |s|
    ensures w2 == SpaceRun(s, i + 5 + w1 + 8) && s[i + 5 + w1 + 8 + w2] == '='
    ensures w3 == SpaceRun(s, i + 5 + w1 + 8 + w2 + 1)
  {
    w2 := SpaceRun(s, i + 5 + w1 + 8);
    w3 := SpaceRun(s, i + 5 + w1 + 8 + w2 + 1);
  }

  /** Whole runs make a prefix. */
  lemma PrefixOfRuns(s: string, i: nat, w1: nat, w2: nat, w3: nat)
    requires i + 5 + w1 + 8 + w2 + 1 + w3 <= |s| && w1 >= 1
    requires OccursAt(s, "const", i) && SpaceRun(s, i + 5) == w1
    requires OccursAt(s, "imgHttps", i + 5 + w1) && SpaceRun(s, i + 5 + w1 + 8) == w2
    requires s[i + 5 + w1 + 8 + w2] == '=' && SpaceRun(s, i + 5 + w1 + 8 + w2 + 1) == w3
    ensures ImgHttpsPrefix(s, i, w1, w2, w3)
  {
  }

  /** When the assignment pattern matches at `i`: `name`, a whitespace run, and an `=` with at
      least one character between it and the first `;` after it. */
  lemma AssignmentAtMatches(s: string, name: string, i: nat)
    requires OccursAt(s, name, i)
    ensures var g := AssignmentAt(s, name, i);
            var e := i + |name| + SpaceRun(s, i + |name|);
            g.Some? <==> e < |s| && s[e] == '=' && FindFirst(s, {';'}, e + 1).Some?
                         && FindFirst(s, {';'}, e + 1).value > e + 1
  {
  }

  /** What the assignment pattern captures: group 1 is the text that ends right before the
      first `;` after the `=`, with the whitespace in front of it left out; if that text is
      whitespace only, group 1 is its last character. */
  lemma AssignmentAtValue(s: string, name: string, i: nat)
    requires OccursAt(s, name, i)
    ensures var g := AssignmentAt(s, name, i);
            var e := i + |name| + SpaceRun(s, i + |name|);
            g.Some? ==> var c := FindFirst(s, {';'}, e + 1).value;
              e + 1 + |g.value| <= c && g.value == s[c - |g.value|..c]
              && (forall k :: e + 1 <= k < c - |g.value| ==> IsSpace(s[k]))
              && (|g.value| > 1 ==> !IsSpace(g.value[0]))
  {
  }

  /** Group 1 of `pattern` when it matches starting at index `i`. */
  function MatchAt(pattern: Pattern, s: string, i: nat): Option<string> {
    if i > |s| then None
    else
      match pattern
      case ImgHttpsArray => ImgHttpsArrayAt(s, i)
      case Assignment(name) => AssignmentAt(s, name, i)
  }

  /** The leftmost start at or after `from` where `pattern` matches. */
  function LeftmostMatch(pattern: Pattern, s: string, from: nat): (r: Option<nat>)
    ensures r.Some? ==> from <= r.value <= |s| && MatchAt(pattern, s, r.value).Some?
    ensures r.Some? ==> forall k :: from <= k < r.value ==> MatchAt(pattern, s, k).None?
    ensures r.None? ==> forall k :: from <= k ==> MatchAt(pattern, s, k).None?
    decreases |s| + 1 - from
  {
    if from > |s| then None
    else if MatchAt(pattern, s, from).Some? then Some(from)
    else LeftmostMatch(pattern, s, from + 1)
  }

  /** `re.search(pattern, s).group(1)`, or `None` when there is no match. */
  function Search(pattern: Pattern, s: string): (g: Option<string>)
    ensures g.None? <==> forall k :: MatchAt(pattern, s, k).None?
  {
    match LeftmostMatch(pattern, s, 0)
    case None => None
    case Some(i) => MatchAt(pattern, s, i)
  }

  /** `re.search` reports the leftmost match: any match found at an index comes from the first
      index where the pattern matches. */
  lemma SearchIsLeftmost(pattern: Pattern, s: string, i: nat)
    requires MatchAt(pattern, s, i).Some?
    requires forall k :: 0 <= k < i ==> MatchAt(pattern, s, k).None?
    ensures Search(pattern, s) == MatchAt(pattern, s, i)
  {
    var r := LeftmostMatch(pattern, s, 0);
    assert r.Some?;
  }

  /** A value made only of whitespace still matches: `\s*` hands its last character to
      `[^;]+`. */
  lemma WhitespaceOnlyAssignment()
    ensures AssignmentAt("x = ;", "x", 0) == Some(" ")
  {
    var s := "x = ;";
    assert s[0..1] == "x";
    assert OccursAt(s, "x", 0);
    assert IsSpace(s[1]) && !IsSpace(s[2]) && IsSpace(s[3]) && !IsSpace(s[4]);
    assert SpaceRun(s, 2) == 0;
    assert SpaceRun(s, 1) == 1;
    assert s[2] == '=';
    assert SpaceRun(s, 4) == 0;
    assert SpaceRun(s, 3) == 1;
    assert FindFirst(s, {';'}, 4) == Some(4);
    assert FindFirst(s, {';'}, 3) == Some(4);
    assert s[3..4] == " ";
  }

  // ----- recombination -----------------------------------------------------------------------

  /** URL `i`: the image itself when there are no query strings, otherwise the image, `?` and
      query string `i` (even when that string is empty). */
  function PageUrl(image: string, args: seq<string>, i: nat): string
    requires args == [] || i < |args|
  {
    if args == [] then image else image + "?" + args[i]
  }

  /** The positional zip of image URLs with query strings. A non-empty but shorter list of
      query strings fails at the first missing index; extra query strings are never read. */
  function Recombine(images: seq<string>, args: seq<string>): (r: Result<seq<string>, PageError>)
    ensures r.Failure? <==> args != [] && |args| < |images|
    ensures r.Failure? ==> r.error == ArgsIndexOutOfRange
    ensures r.Success? ==> |r.value| == |images|
    ensures r.Success? ==> forall i :: 0 <= i < |images| ==> r.value[i] == PageUrl(images[i], args, i)
  {
    if args != [] && |args| < |images| then Failure(ArgsIndexOutOfRange)
    else Success(seq(|images|, i requires 0 <= i < |images| => PageUrl(images[i], args, i)))
  }

  /** Every URL begins with its own image URL, in the images' order; with query strings it is
      exactly that image, `?` and the query string at the same index. */
  lemma RecombineIsPositional(images: seq<string>, args: seq<string>, i: nat)
    requires Recombine(images, args).Success? && i < |images|
    ensures StartsWith(Recombine(images, args).value[i], images[i])
    ensures args == [] ==> Recombine(images, args).value[i] == images[i]
    ensures args != [] ==> Recombine(images, args).value[i] == images[i] + "?" + args[i]
  {
    var url := Recombine(images, args).value[i];
    assert url[..|images[i]|] == images[i];
  }

  /** Query strings past the last image are ignored. */
  lemma RecombineIgnoresExtraArgs(images: seq<string>, args: seq<string>)
    requires |images| <= |args|
    ensures Recombine(images, args) == Recombine(images, args[..|images|])
  {
    var n := |images|;
    if n > 0 {
      assert args[..n] != [];
      var a := Recombine(images, args).value;
      var b := Recombine(images, args[..n]).value;
      assert forall i :: 0 <= i < n ==> a[i] == b[i];
      assert a == b;
    }
  }

  /** The recombination of the three-image example: the empty query string still adds `?`. */
  lemma RecombineExample()
    ensures Recombine(["a", "b", "c"], ["x=1", "", "y=2"]) == Success(["a?x=1", "b?", "c?y=2"])
  {
    var r := Recombine(["a", "b", "c"], ["x=1", "", "y=2"]).value;
    assert |r| == 3;
    assert r[0] == "a" + "?" + "x=1" == "a?x=1";
    assert r[1] == "b" + "?" + "" == "b?";
    assert r[2] == "c" + "?" + "y=2" == "c?y=2";
    assert r == ["a?x=1", "b?", "c?y=2"];
  }

  /** `MangaPage(id=generate_uid(url), url=url, preview=None)` for each URL in order. */
  function PagesFor(urls: seq<string>, sha1Hex: string -> string): (pages: seq<MangaPage>)
    ensures |pages| == |urls|
    ensures forall i :: 0 <= i < |urls| ==> pages[i] == MangaPage(sha1Hex(urls[i]), urls[i], None)
  {
    seq(|urls|, i requires 0 <= i < |urls| => MangaPage(sha1Hex(urls[i]), urls[i], None))
  }

  // ----- one script, then the whole page -----------------------------------------------------

  /** What examining one script decides: look at the next script, or stop with this outcome. */
  datatype Step = Skip | Finish(outcome: Result<seq<MangaPage>, PageError>)

  /** The password, the decryption and the recombination, once the three literals are in hand.
      The evaluator is consulted first; if it returns nothing, nothing is decrypted. A failed
      decryption, decrypted text that is not a JSON list of strings, and too few query strings
      each stop with their own error; otherwise page `i` is image `i` with query string `i`,
      identified by the SHA-1 of its URL. */
  function Unlock(images: seq<string>, passExpr: string, word: string, ctx: Context): (r: Result<seq<MangaPage>, PageError>)
    ensures ctx.evaluateJs(passExpr).None? ==> r == Failure(PasswordUnavailable)
    ensures r.Success? ==> |r.value| == |images|
    ensures r.Success? ==> forall i :: 0 <= i < |images| ==>
              StartsWith(r.value[i].url, images[i]) && r.value[i].id == ctx.sha1Hex(r.value[i].url)
    ensures var pw := ctx.evaluateJs(passExpr);
            pw.Some? ==>
              var d := Payload.DecryptBatoto(word, pw.value, ctx.decodeBase64, ctx.crypto);
              (d.Failure? ==> r == Failure(DecryptFailed(d.error)))
              && (d.Success? && ctx.parseJsonStrings(d.value).None? ==> r == Failure(InvalidJson))
              && (d.Success? && ctx.parseJsonStrings(d.value).Some? ==>
                    var args := ctx.parseJsonStrings(d.value).value;
                    (r.Failure? <==> args != [] && |args| < |images|)
                    && (r.Failure? ==> r.error == ArgsIndexOutOfRange)
                    && (r.Success? ==> forall i :: 0 <= i < |images| ==>
                          r.value[i] == MangaPage(ctx.sha1Hex(PageUrl(images[i], args, i)), PageUrl(images[i], args, i), None)))
  {
    match ctx.evaluateJs(passExpr)
    case None => Failure(PasswordUnavailable)
    case Some(password) =>
      match Payload.DecryptBatoto(word, password, ctx.decodeBase64, ctx.crypto)
      case Failure(e) => Failure(DecryptFailed(e))
      case Success(decrypted) =>
        match ctx.parseJsonStrings(decrypted)
        case None => Failure(InvalidJson)
        case Some(args) =>
          match Recombine(images, args)
          case Failure(e) => Failure(e)
          case Success(urls) =>
            assert forall i :: 0 <= i < |images| ==> StartsWith(urls[i], images[i]) by {
              forall i | 0 <= i < |images| ensures StartsWith(urls[i], images[i]) {
                RecombineIsPositional(images, args, i);
              }
            }
            Success(PagesFor(urls, ctx.sha1Hex))
  }

  /** One iteration of the loop over scripts. A script without the marker, or without the array
      literal, or without either assignment, is skipped; an array literal that is not valid JSON
      stops everything, even when the assignments are missing. */
  function Examine(text: string, ctx: Context): (s: Step)
    ensures !Contains(text, ImgHttpsMarker) ==> s == Skip
    ensures Search(ImgHttpsArray, text).None? ==> s == Skip
    ensures (Contains(text, ImgHttpsMarker) && Search(ImgHttpsArray, text).Some?
             && ctx.parseJsonStrings(Search(ImgHttpsArray, text).value).None?)
            ==> s == Finish(Failure(InvalidJson))
  {
    if !Contains(text, ImgHttpsMarker) then Skip
    else
      match Search(ImgHttpsArray, text)
      case None => Skip
      case Some(arrayLiteral) =>
        match ctx.parseJsonStrings(arrayLiteral)
        case None => Finish(Failure(InvalidJson))
        case Some(images) =>
          var pass := Search(Assignment("batoPass"), text);
          var word := Search(Assignment("batoWord"), text);
          if pass.None? || word.None? then Skip
          else Finish(Unlock(images, Strip(pass.value), StripChars(Strip(word.value), Quotes), ctx))
  }

  /** A script whose array literal is found and parses: it has the marker, `re.search` finds
      the literal, and `json.loads` accepts it. */
  predicate HasImages(text: string, ctx: Context) {
    Contains(text, ImgHttpsMarker) && Search(ImgHttpsArray, text).Some?
    && ctx.parseJsonStrings(Search(ImgHttpsArray, text).value).Some?
  }

  /** The image URLs of such a script: `json.loads` of its `imgHttps` literal. */
  function ScriptImages(text: string, ctx: Context): seq<string>
    requires HasImages(text, ctx)
  {
    ctx.parseJsonStrings(Search(ImgHttpsArray, text).value).value
  }

  /** A script that unlocks: its images and both assignments are found. */
  predicate Qualifies(text: string, ctx: Context) {
    HasImages(text, ctx) && Search(Assignment("batoPass"), text).Some? && Search(Assignment("batoWord"), text).Some?
  }

  /** What a qualifying script decides: its images, unlocked with its `batoPass` value stripped
      of whitespace and its `batoWord` value stripped of whitespace and then of quotes. */
  function ScriptOutcome(text: string, ctx: Context): Result<seq<MangaPage>, PageError>
    requires Qualifies(text, ctx)
  {
    Unlock(ScriptImages(text, ctx), Strip(Search(Assignment("batoPass"), text).value),
           StripChars(Strip(Search(Assignment("batoWord"), text).value), Quotes), ctx)
  }

  /** A script with a valid array literal but without one of the assignments is skipped. */
  lemma MissingAssignmentSkips(text: string, ctx: Context)
    requires HasImages(text, ctx) && !Qualifies(text, ctx)
    ensures Examine(text, ctx) == Skip
  {
  }

  /** A qualifying script decides, with the outcome of unlocking its own literals. */
  lemma ExamineUnlocks(text: string, ctx: Context)
    requires Qualifies(text, ctx)
    ensures Examine(text, ctx) == Finish(ScriptOutcome(text, ctx))
  {
  }

  /** A script decides exactly when it qualifies or its array literal is found but is not
      valid JSON. */
  lemma ExamineFinishes(text: string, ctx: Context)
    ensures Examine(text, ctx).Finish? <==>
              Qualifies(text, ctx)
              || (Contains(text, ImgHttpsMarker) && Search(ImgHttpsArray, text).Some? && !HasImages(text, ctx))
  {
  }

  /** The outcome of the loop over the scripts of a page: the first script that does not skip
      decides; when every script skips, the images list was not found. */
  function Resolve(scripts: seq<string>, ctx: Context): Result<seq<MangaPage>, PageError> {
    if scripts == [] then Failure(ImagesNotFound)
    else
      match Examine(scripts[0], ctx)
      case Skip => Resolve(scripts[1..], ctx)
      case Finish(outcome) => outcome
  }

  /** Scripts that skip can be dropped from the front. */
  lemma {:induction false} ResolveSkipsPrefix(skipped: seq<string>, rest: seq<string>, ctx: Context)
    requires forall k :: 0 <= k < |skipped| ==> Examine(skipped[k], ctx) == Skip
    ensures Resolve(skipped + rest, ctx) == Resolve(rest, ctx)
  {
    if skipped != [] {
      var all := skipped + rest;
      assert all[0] == skipped[0];
      assert Examine(all[0], ctx) == Skip;
      assert all[1..] == skipped[1..] + rest;
      assert Resolve(all, ctx) == Resolve(all[1..], ctx);
      ResolveSkipsPrefix(skipped[1..], rest, ctx);
    } else {
      assert skipped + rest == rest;
    }
  }

  /** The first script that does not skip determines the result; the scripts after it are
      never consulted. */
  lemma FirstDecisiveScriptDecides(scripts: seq<string>, i: nat, ctx: Context)
    requires i < |scripts| && Examine(scripts[i], ctx).Finish?
    requires forall k :: 0 <= k < i ==> Examine(scripts[k], ctx) == Skip
    ensures Resolve(scripts, ctx) == Examine(scripts[i], ctx).outcome
  {
    assert scripts == scripts[..i] + scripts[i..];
    ResolveSkipsPrefix(scripts[..i], scripts[i..], ctx);
  }

  /** Scripts appended after a decisive one change nothing. */
  lemma LaterScriptsIgnored(scripts: seq<string>, later: seq<string>, i: nat, ctx: Context)
    requires i < |scripts| && Examine(scripts[i], ctx).Finish?
    requires forall k :: 0 <= k < i ==> Examine(scripts[k], ctx) == Skip
    ensures Resolve(scripts + later, ctx) == Resolve(scripts, ctx)
  {
    FirstDecisiveScriptDecides(scripts, i, ctx);
    FirstDecisiveScriptDecides(scripts + later, i, ctx);
  }

  /** When every script skips, the call fails with "Cannot find images list". */
  lemma NoDecisiveScriptFails(scripts: seq<string>, ctx: Context)
    requires forall k :: 0 <= k < |scripts| ==> Examine(scripts[k], ctx) == Skip
    ensures Resolve(scripts, ctx) == Failure(ImagesNotFound)
  {
    ResolveSkipsPrefix(scripts, [], ctx);
    assert scripts + [] == scripts;
  }

  /** Any outcome other than "Cannot find images list" is the decision of the first script
      that does not skip. */
  lemma {:induction false} ResolveFromScript(scripts: seq<string>, ctx: Context)
    requires Resolve(scripts, ctx) != Failure(ImagesNotFound)
    ensures exists k :: 0 <= k < |scripts| && (forall j :: 0 <= j < k ==> Examine(scripts[j], ctx) == Skip)
              && Examine(scripts[k], ctx) == Finish(Resolve(scripts, ctx))
  {
    if Examine(scripts[0], ctx) == Skip {
      var tail := scripts[1..];
      ResolveFromScript(tail, ctx);
      var k :| 0 <= k < |tail| && (forall j :: 0 <= j < k ==> Examine(tail[j], ctx) == Skip)
               && Examine(tail[k], ctx) == Finish(Resolve(tail, ctx));
      forall j | 0 <= j < k + 1 ensures Examine(scripts[j], ctx) == Skip {
        if j > 0 { assert scripts[j] == tail[j - 1]; }
      }
      assert scripts[k + 1] == tail[k];
    } else {
      assert Examine(scripts[0], ctx) == Finish(Resolve(scripts, ctx));
    }
  }

  /** Success always comes from the first script that does not skip: that script qualifies,
      and the result is what unlocking its literals gives, one page per image in order. */
  lemma ResolveSuccessIsPositional(scripts: seq<string>, ctx: Context)
    requires Resolve(scripts, ctx).Success?
    ensures exists k :: 0 <= k < |scripts| && (forall j :: 0 <= j < k ==> Examine(scripts[j], ctx) == Skip)
              && Qualifies(scripts[k], ctx) && Resolve(scripts, ctx) == ScriptOutcome(scripts[k], ctx)
  {
    ResolveFromScript(scripts, ctx);
    var k :| 0 <= k < |scripts| && (forall j :: 0 <= j < k ==> Examine(scripts[j], ctx) == Skip)
             && Examine(scripts[k], ctx) == Finish(Resolve(scripts, ctx));
    ScriptDecidesSuccess(scripts[k], ctx);
  }

  /** A script that decides with success qualifies, and its outcome is its unlocked literals. */
  lemma ScriptDecidesSuccess(text: string, ctx: Context)
    requires Examine(text, ctx).Finish? && Examine(text, ctx).outcome.Success?
    ensures Qualifies(text, ctx) && Examine(text, ctx).outcome == ScriptOutcome(text, ctx)
  {
    ExamineFinishes(text, ctx);
    ExamineUnlocks(text, ctx);
  }

  // ----- get_pages ---------------------------------------------------------------------------

  /** The loop of `get_pages` that builds one page per image, in order. */
  method BuildPages(images: seq<string>, args: seq<string>, sha1Hex: string -> string)
    returns (r: Result<seq<MangaPage>, PageError>)
    ensures r == match Recombine(images, args)
                 case Failure(e) => Failure(e)
                 case Success(urls) => Success(PagesFor(urls, sha1Hex))
  {
    var pages: seq<MangaPage> := [];
    var i := 0;
    while i < |images|
      invariant i <= |images|
      invariant args != [] ==> i <= |args|
      invariant |pages| == i
      invariant forall k :: 0 <= k < i ==>
                  pages[k] == MangaPage(sha1Hex(PageUrl(images[k], args, k)), PageUrl(images[k], args, k), None)
    {
      var url;
      if args == [] {
        url := images[i];
      } else {
        if i >= |args| {
          return Failure(ArgsIndexOutOfRange);
        }
        url := images[i] + "?" + args[i];
      }
      pages := pages + [MangaPage(sha1Hex(url), url, None)];
      i := i + 1;
    }
    assert Recombine(images, args).Success?;
    assert pages == PagesFor(Recombine(images, args).value, sha1Hex);
    return Success(pages);
  }

  /** The body of the loop over scripts: `Skip` where the source says `continue`. */
  method ExamineScript(text: string, ctx: Context) returns (step: Step)
    ensures step == Examine(text, ctx)
  {
    if !Contains(text, ImgHttpsMarker) {
      return Skip;
    }
    var m := Search(ImgHttpsArray, text);
    if m.None? {
      return Skip;
    }
    var images := ctx.parseJsonStrings(m.value);
    if images.None? {
      return Finish(Failure(InvalidJson));
    }
    var passMatch := Search(Assignment("batoPass"), text);
    var wordMatch := Search(Assignment("batoWord"), text);
    if passMatch.None? || wordMatch.None? {
      return Skip;
    }
    var passExpr := Strip(passMatch.value);
    var word := StripChars(Strip(wordMatch.value), Quotes);
    var password := ctx.evaluateJs(passExpr);
    if password.None? {
      return Finish(Failure(PasswordUnavailable));
    }
    var decrypted := Payload.DecryptBatoto(word, password.value, ctx.decodeBase64, ctx.crypto);
    if decrypted.Failure? {
      return Finish(Failure(DecryptFailed(decrypted.error)));
    }
    var args := ctx.parseJsonStrings(decrypted.value);
    if args.None? {
      return Finish(Failure(InvalidJson));
    }
    var pages := BuildPages(images.value, args.value, ctx.sha1Hex);
    return Finish(pages);
  }

  /** `get_pages(chapter_url)`: fetch the page, walk its scripts in order, and stop at the first
      one that does not skip. */
  method GetPages(chapterUrl: string, domain: string, ctx: Context) returns (r: Result<seq<MangaPage>, PageError>)
    ensures r == Resolve(ctx.fetchScripts(Abs(domain, chapterUrl, ctx.urlJoin)), ctx)
  {
    var full := Abs(domain, chapterUrl, ctx.urlJoin);
    var scripts := ctx.fetchScripts(full);
    var n := 0;
    while n < |scripts|
      invariant n <= |scripts|
      invariant Resolve(scripts[n..], ctx) == Resolve(scripts, ctx)
    {
      assert scripts[n..][0] == scripts[n] && scripts[n..][1..] == scripts[n + 1..];
      var step := ExamineScript(scripts[n], ctx);
      if step.Finish? {
        return step.outcome;
      }
      n := n + 1;
    }
    return Failure(ImagesNotFound);
  }
}
