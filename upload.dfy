/** The decisions of middleware/upload.js: which files the upload filter
    accepts, the size limit each subscription gets, and where and under
    which name an accepted file is stored.  The multer wrappers, the
    directory creation and the file deletion loop are I/O and are not
    modelled. */
module Upload {
  import opened Common
  import opened AuthMiddleware

  // ---------------------------------------------------------------------
  // The allow-list

  /** ALLOWED_FILE_TYPES: MIME type to the one extension accepted for it. */
  const AllowedFileTypes: map<string, string> := map[
    "image/jpeg" := ".jpg",
    "image/jpg" := ".jpg",
    "image/png" := ".png",
    "image/gif" := ".gif",
    "image/webp" := ".webp",
    "application/pdf" := ".pdf",
    "audio/mpeg" := ".mp3",
    "audio/wav" := ".wav",
    "audio/ogg" := ".ogg",
    "video/mp4" := ".mp4",
    "video/webm" := ".webm"]

  /** Names every plain object answers with a truthy inherited member, so
      that looking one of them up in the allow-list finds something that is
      not an extension. */
  const ObjectPrototypeKeys: set<string> := {
    "constructor", "__proto__", "toString", "toLocaleString", "valueOf",
    "hasOwnProperty", "isPrototypeOf", "propertyIsEnumerable",
    "__defineGetter__", "__defineSetter__", "__lookupGetter__", "__lookupSetter__"}

  /** The endings the filter treats as executable, compared without regard
      to letter case. */
  const SuspiciousPatterns: seq<string> := [".php", ".js", ".exe", ".bat", ".sh", ".asp", ".jsp", ".pl", ".py", ".rb"]

  /** An extension as path.extname yields it: a dot, then no further dot
      and no slash. */
  predicate ExtensionShaped(e: string) {
    |e| >= 1 && e[0] == '.' && '.' !in e[1..] && '/' !in e
  }

  // ---------------------------------------------------------------------
  // path.extname and path.basename (POSIX)

  /** The text without its trailing slashes. */
  function TrimTrailingSlashes(p: string): (r: string)
    ensures |r| <= |p| && forall i :: 0 <= i < |r| ==> r[i] == p[i]
    ensures r == [] || r[|r| - 1] != '/'
  {
    if p != [] && p[|p| - 1] == '/' then TrimTrailingSlashes(p[..|p| - 1]) else p
  }

  /** The text after the last slash. */
  function LastSegment(p: string): (r: string)
    ensures '/' !in r
    ensures |r| <= |p| && forall i :: 0 <= i < |r| ==> r[i] == p[|p| - |r| + i]
    ensures |r| < |p| ==> p[|p| - |r| - 1] == '/'
  {
    if p == [] || p[|p| - 1] == '/' then []
    else
      var r := LastSegment(p[..|p| - 1]) + [p[|p| - 1]];
      assert p == p[..|p| - 1] + [p[|p| - 1]];
      r
  }

  /** The last segment of a path, as path.basename and path.extname see it. */
  function Segment(p: string): (r: string)
    ensures '/' !in r
  {
    LastSegment(TrimTrailingSlashes(p))
  }

  /** The position of the last dot. */
  function LastDot(s: string): (d: Option<nat>)
    ensures d.Some? ==> d.value < |s| && s[d.value] == '.' && forall i :: d.value < i < |s| ==> s[i] != '.'
    ensures d.None? ==> '.' !in s
  {
    if s == [] then None
    else if s[|s| - 1] == '.' then Some(|s| - 1)
    else
      var d := LastDot(s[..|s| - 1]);
      assert d.None? ==> forall i :: 0 <= i < |s| ==> s[i] != '.' by {
        if d.None? {
          forall i | 0 <= i < |s| - 1 ensures s[i] != '.' {
            assert s[..|s| - 1][i] == s[i];
          }
        }
      }
      d
  }

  /** path.extname: from the last dot of the last segment to its end; empty
      when the segment has no dot, when its only dot-free prefix is empty (a
      leading dot, as in ".bashrc") or when the segment is "..". */
  function ExtName(p: string): (ext: string)
    ensures ext == [] || ExtensionShaped(ext)
  {
    var part := Segment(p);
    var d := LastDot(part);
    if d.None? || d.value == 0 || part == ".." then ""
    else
      var ext := part[d.value..];
      assert forall i :: 0 <= i < |ext| - 1 ==> ext[1..][i] == part[d.value + 1 + i];
      assert '/' !in ext by {
        assert forall i :: 0 <= i < |ext| ==> ext[i] == part[d.value + i];
      }
      ext
  }

  /** path.basename(name, ext) for ext the lower-cased extension of name: the
      last segment, with the extension cut off when the segment ends with it
      letter for letter (an upper-case extension is therefore kept). */
  function Stem(name: string): (r: string)
    ensures '/' !in r
  {
    var part := Segment(name);
    var ext := Lower(ExtName(name));
    if ext != "" && EndsWith(part, ext) then
      assert forall i :: 0 <= i < |part| - |ext| ==> part[..|part| - |ext|][i] == part[i];
      part[..|part| - |ext|]
    else part
  }

  // ---------------------------------------------------------------------
  // fileFilter

  predicate SuspiciousName(name: string) {
    exists p :: p in SuspiciousPatterns && EndsWith(Lower(name), p)
  }

  datatype Verdict = Accept | NotAllowed | ExtensionMismatch | Suspicious

  /** fileFilter: the MIME type must be in the allow-list, the lower-cased
      extension of the original name must be the one listed for it, and the
      name must not end in an executable extension, checked in that order. */
  function FileFilter(mimetype: string, name: string): Verdict {
    if mimetype !in AllowedFileTypes && mimetype !in ObjectPrototypeKeys then NotAllowed
    else if mimetype !in AllowedFileTypes || AllowedFileTypes[mimetype] != Lower(ExtName(name)) then ExtensionMismatch
    else if SuspiciousName(name) then Suspicious
    else Accept
  }

  /** Lower-casing changes neither dots nor slashes. */
  lemma LowerKeepsPunctuation(s: string, i: nat)
    requires i < |s|
    ensures Lower(s)[i] == '.' <==> s[i] == '.'
    ensures Lower(s)[i] == '/' <==> s[i] == '/'
  {
  }

  /** A name whose ending holds no slash keeps that ending in its last
      segment. */
  lemma SegmentKeepsEnding(name: string, k: nat)
    requires k < |name| && forall i :: k <= i < |name| ==> name[i] != '/'
    ensures |Segment(name)| >= |name| - k
    ensures forall i :: 0 <= i < |Segment(name)| ==> Segment(name)[i] == name[|name| - |Segment(name)| + i]
  {
    assert TrimTrailingSlashes(name) == name;
  }

  /** A name without slashes is its own last segment. */
  lemma SlashFreeSegment(name: string)
    requires '/' !in name
    ensures Segment(name) == name
  {
    if name != [] {
      SegmentKeepsEnding(name, 0);
    }
  }

  /** A dot with no dot after it is the last dot. */
  lemma LastDotAt(s: string, j: nat)
    requires j < |s| && s[j] == '.' && forall i :: j < i < |s| ==> s[i] != '.'
    ensures LastDot(s) == Some(j)
  {
    assert s[j] in s;
  }

  /** When the last dot of a name is followed by no slash, the extension is
      empty or runs from that dot to the end, and it is not empty when the
      character before the dot is neither a slash nor a dot. */
  lemma ExtNameAt(name: string, k: nat)
    requires k < |name| && name[k] == '.'
    requires forall i :: k <= i < |name| ==> name[i] != '/'
    requires forall i :: k < i < |name| ==> name[i] != '.'
    ensures ExtName(name) == "" || ExtName(name) == name[k..]
    ensures k > 0 && name[k - 1] != '/' && name[k - 1] != '.' ==> ExtName(name) == name[k..]
  {
    SegmentEnding(name, k);
    ExtNameOf(name);
    var part := Segment(name);
    var j := |part| - (|name| - k);
    var before := k > 0 && name[k - 1] != '/' && name[k - 1] != '.';
    assert before ==> part[j - 1] != '.';
    ExtChoice(part, j, name[k..], ExtName(name), before);
  }

  /** With the last dot of a segment at j, the extension is either empty or
      the ending from j, and it is that ending when the dot follows a
      character other than a dot. */
  lemma ExtChoice(part: string, j: int, ending: string, ext: string, before: bool)
    requires 0 <= j < |part| && LastDot(part) == Some(j) && part[j..] == ending
    requires ext == if j == 0 || part == ".." then "" else part[j..]
    requires before ==> j > 0 && part[j - 1] != '.'
    ensures ext == "" || ext == ending
    ensures before ==> ext == ending
  {
    if before {
      assert part != "..";
    }
  }

  /** The ending that starts at the last dot of a name is also the ending
      of its last segment, from that segment's last dot. */
  lemma SegmentEnding(name: string, k: nat)
    requires k < |name| && name[k] == '.'
    requires forall i :: k <= i < |name| ==> name[i] != '/'
    requires forall i :: k < i < |name| ==> name[i] != '.'
    ensures var part := Segment(name); var j := |part| - (|name| - k);
      && 0 <= j < |part| && LastDot(part) == Some(j) && part[j..] == name[k..]
      && (k > 0 && name[k - 1] != '/' ==> j > 0 && part[j - 1] == name[k - 1])
  {
    if k > 0 && name[k - 1] != '/' {
      SegmentKeepsEnding(name, k - 1);
      var part := Segment(name);
      assert part[|part| - (|name| - k) - 1] == name[k - 1];
    } else {
      SegmentKeepsEnding(name, k);
    }
    EndingAt(Segment(name), name, k);
  }

  /** A text ending like the name, at least from position k on, has its
      last dot where the name's ending puts it. */
  lemma EndingAt(part: string, name: string, k: nat)
    requires k < |name| && name[k] == '.'
    requires forall i :: k < i < |name| ==> name[i] != '.'
    requires |name| - k <= |part| <= |name|
    requires forall i :: 0 <= i < |part| ==> part[i] == name[|name| - |part| + i]
    ensures var j := |part| - (|name| - k); LastDot(part) == Some(j) && part[j..] == name[k..]
  {
    var j := |part| - (|name| - k);
    assert |name| - |part| + j == k;
    assert part[j] == name[k];
    forall i | j < i < |part| ensures part[i] != '.' {
      assert part[i] == name[k + (i - j)];
    }
    LastDotAt(part, j);
    forall i | 0 <= i < |name| - k ensures part[j..][i] == name[k..][i] {
      assert part[j + i] == name[k + i];
    }
  }

  /** path.extname in terms of the last segment and its last dot. */
  lemma ExtNameOf(p: string)
    ensures var part := Segment(p); var d := LastDot(part);
      ExtName(p) == if d.None? || d.value == 0 || part == ".." then "" else part[d.value..]
  {
  }

  /** Lower-casing commutes with taking an ending. */
  lemma LowerEnding(s: string, k: nat)
    requires k <= |s|
    ensures Lower(s[k..]) == Lower(s)[k..]
  {
    assert forall i :: 0 <= i < |s| - k ==> Lower(s[k..])[i] == LowerChar(s[k + i]);
  }

  /** A name ending, in any letter case, with an extension-shaped text has
      that text as its lower-cased extension, unless the text is all the
      last segment holds. */
  lemma ExtensionOfEnding(name: string, sfx: string)
    requires ExtensionShaped(sfx)
    ensures EndsWith(Lower(name), sfx) ==> ExtName(name) == "" || Lower(ExtName(name)) == sfx
  {
    if EndsWith(Lower(name), sfx) {
      ExtensionOfEndingAt(name, sfx);
    }
  }

  lemma ExtensionOfEndingAt(name: string, sfx: string)
    requires ExtensionShaped(sfx) && EndsWith(Lower(name), sfx)
    ensures ExtName(name) == "" || Lower(ExtName(name)) == sfx
  {
    var k := |name| - |sfx|;
    assert Lower(name)[k..] == sfx;
    forall i | k <= i < |name| ensures name[i] != '/' && (i > k ==> name[i] != '.') {
      LowerKeepsPunctuation(name, i);
      assert Lower(name)[i] == sfx[i - k];
      if i > k {
        assert sfx[1..][i - k - 1] == sfx[i - k];
      }
    }
    LowerKeepsPunctuation(name, k);
    assert Lower(name)[k] == sfx[0];
    ExtNameAt(name, k);
    LowerEnding(name, k);
  }

  /** Every executable ending is extension-shaped. */
  lemma PatternsAreExtensions(i: nat)
    requires i < |SuspiciousPatterns|
    ensures ExtensionShaped(SuspiciousPatterns[i])
  {
  }

  /** No allowed extension is empty or executable. */
  lemma AllowedIsNotSuspicious(e: string)
    requires e in AllowedFileTypes.Values
    ensures e != "" && e !in SuspiciousPatterns
  {
  }

  /** The executable-extension check is dead code: a name whose lower-cased
      extension is an allowed one never ends in an executable extension. */
  lemma SuspiciousUnreachable(mimetype: string, name: string)
    requires mimetype in AllowedFileTypes && AllowedFileTypes[mimetype] == Lower(ExtName(name))
    ensures !SuspiciousName(name)
  {
    var e := AllowedFileTypes[mimetype];
    assert e in AllowedFileTypes.Values;
    AllowedIsNotSuspicious(e);
    assert Lower("") == "";
    forall i | 0 <= i < |SuspiciousPatterns| ensures !EndsWith(Lower(name), SuspiciousPatterns[i]) {
      PatternsAreExtensions(i);
      ExtensionOfEnding(name, SuspiciousPatterns[i]);
    }
  }

  /** The filter accepts a file exactly when its MIME type is in the
      allow-list and the lower-cased extension of its name is the listed
      one, and it never reports a name as suspicious.  A type outside the
      list is refused as not allowed, except a name every object inherits
      ("constructor", "toString", …): that lookup finds something, and
      the file is refused as having the wrong extension. */
  lemma FileFilterSpec(mimetype: string, name: string)
    ensures FileFilter(mimetype, name) == Accept <==>
      mimetype in AllowedFileTypes && AllowedFileTypes[mimetype] == Lower(ExtName(name))
    ensures FileFilter(mimetype, name) != Suspicious
    ensures mimetype !in AllowedFileTypes ==>
      FileFilter(mimetype, name) == (if mimetype in ObjectPrototypeKeys then ExtensionMismatch else NotAllowed)
  {
    if mimetype in AllowedFileTypes && AllowedFileTypes[mimetype] == Lower(ExtName(name)) {
      SuspiciousUnreachable(mimetype, name);
    }
  }

  /** A PHP script sent as image/png ("shell.php") fails the extension
      check, before the executable check is reached. */
  lemma PhpAsPng(stem: string)
    requires stem != [] && Plain(stem)
    ensures FileFilter("image/png", stem + ".php") == ExtensionMismatch
  {
    ExtNameOfPlain(stem, ".php");
  }

  /** image/jpeg wants ".jpg": "photo.jpeg" is refused, "photo.JPG" is
      taken. */
  lemma JpegWantsJpg(stem: string)
    requires stem != [] && Plain(stem)
    ensures FileFilter("image/jpeg", stem + ".jpeg") == ExtensionMismatch
    ensures FileFilter("image/jpeg", stem + ".JPG") == Accept
  {
    JpegRefused(stem);
    JpgAccepted(stem);
  }

  lemma JpegRefused(stem: string)
    requires stem != [] && Plain(stem)
    ensures FileFilter("image/jpeg", stem + ".jpeg") == ExtensionMismatch
  {
    ExtNameOfPlain(stem, ".jpeg");
    assert |Lower(".jpeg")| == 5;
    assert AllowedFileTypes["image/jpeg"] != Lower(ExtName(stem + ".jpeg"));
  }

  lemma JpgAccepted(stem: string)
    requires stem != [] && Plain(stem)
    ensures FileFilter("image/jpeg", stem + ".JPG") == Accept
  {
    ExtNameOfPlain(stem, ".JPG");
    UpperJpg();
    assert AllowedFileTypes["image/jpeg"] == Lower(ExtName(stem + ".JPG"));
    SuspiciousUnreachable("image/jpeg", stem + ".JPG");
  }

  // ---------------------------------------------------------------------
  // getFileSizeLimit

  const MiB: nat := 1024 * 1024

  /** FILE_SIZE_LIMITS by subscription, free for a missing user, a missing
      subscription or an unknown one. */
  function FileSizeLimit(subscription: Option<string>): nat {
    if subscription == Some("premium") then 25 * MiB
    else if subscription == Some("pro") then 100 * MiB
    else 5 * MiB
  }

  /** The limit is always one of the three tiers, and it follows the
      subscription ranking the access guards use: a higher-ranked plan never
      gets a smaller limit. */
  lemma FileSizeFollowsLevel(a: Option<string>, b: Option<string>)
    ensures FileSizeLimit(a) in {5 * MiB, 25 * MiB, 100 * MiB}
    ensures FileSizeLimit(a) == [5 * MiB, 25 * MiB, 100 * MiB][Level(a)]
    ensures Level(a) <= Level(b) ==> FileSizeLimit(a) <= FileSizeLimit(b)
  {
  }

  // ---------------------------------------------------------------------
  // createStorage: the file name and the directory

  /** A character outside the Basic Multilingual Plane: JavaScript strings
      hold it as two UTF-16 code units, a surrogate pair. */
  predicate Astral(c: char) {
    c as int >= 0x1_0000
  }

  /** The length JavaScript reports for a string: its UTF-16 code units. */
  function CodeUnits(s: string): (n: nat)
    ensures n >= |s|
  {
    if s == [] then 0 else (if Astral(s[0]) then 2 else 1) + CodeUnits(s[1..])
  }

  /** A character kept as is in a stored name; everything else becomes '_'. */
  function SafeChar(c: char): char {
    if IsAsciiAlphaNum(c) then c else '_'
  }

  /** What the replacement makes of one character.  The pattern has no `u`
      flag, so it matches code units, and each half of a surrogate pair
      becomes its own '_'. */
  function SafeUnits(c: char): string {
    if Astral(c) then "__" else [SafeChar(c)]
  }

  /** `.replace(/[^a-zA-Z0-9]/g, '_')`. */
  function Sanitize(s: string): string {
    if s == [] then [] else SafeUnits(s[0]) + Sanitize(s[1..])
  }

  predicate IsSafeNameChar(c: char) {
    IsAsciiAlphaNum(c) || c == '_'
  }

  predicate NoAstral(s: string) {
    forall i :: 0 <= i < |s| ==> !Astral(s[i])
  }

  /** Sanitising leaves one safe character per UTF-16 code unit: a name
      without astral characters is replaced character for character
      (letters and digits stay in place, every other character becomes an
      underscore), an astral character becomes two underscores; and
      sanitising again changes nothing. */
  lemma {:induction false} SanitizeSpec(s: string)
    ensures |Sanitize(s)| == CodeUnits(s)
    ensures forall i :: 0 <= i < |Sanitize(s)| ==> IsSafeNameChar(Sanitize(s)[i])
    ensures NoAstral(s) ==>
      && |Sanitize(s)| == |s|
      && forall i :: 0 <= i < |s| ==> Sanitize(s)[i] == (if IsAsciiAlphaNum(s[i]) then s[i] else '_')
    ensures Sanitize(Sanitize(s)) == Sanitize(s)
  {
    if s != [] {
      SanitizeSpec(s[1..]);
      var r := Sanitize(s);
      var head := SafeUnits(s[0]);
      assert r == head + Sanitize(s[1..]);
      forall i | 0 <= i < |r| ensures IsSafeNameChar(r[i]) {
        if i >= |head| { assert r[i] == Sanitize(s[1..])[i - |head|]; }
      }
      if NoAstral(s) {
        assert NoAstral(s[1..]) by {
          forall i | 0 <= i < |s[1..]| ensures !Astral(s[1..][i]) { assert s[1..][i] == s[i + 1]; }
        }
        forall i | 1 <= i < |s| ensures r[i] == SafeChar(s[i]) {
          assert r[i] == Sanitize(s[1..])[i - 1] && s[1..][i - 1] == s[i];
        }
      }
      SanitizeKeepsSafe(r);
    } else {
      SanitizeKeepsSafe([]);
    }
  }

  /** A name made only of safe characters is its own sanitisation. */
  lemma {:induction false} SanitizeKeepsSafe(t: string)
    requires forall i :: 0 <= i < |t| ==> IsSafeNameChar(t[i])
    ensures Sanitize(t) == t
  {
    if t != [] {
      assert IsSafeNameChar(t[0]);
      SanitizeKeepsSafe(t[1..]);
      assert t == [t[0]] + t[1..];
    }
  }

  /** An emoji, one character outside the Basic Multilingual Plane, leaves
      two underscores in the stored name. */
  lemma EmojiTakesTwoUnderscores()
    ensures Sanitize("a\U{1F600}") == "a__"
  {
    assert "a\U{1F600}"[1..] == "\U{1F600}";
    assert "\U{1F600}"[1..] == [];
  }

  /** basename.substring(0, 50) of the sanitised base name. */
  function ShortBasename(name: string): string {
    Substring(Sanitize(Stem(name)), 0, 50)
  }

  /** The shortened base name holds only letters, digits and underscores,
      at most fifty of them: the first fifty (or all) code units of the
      sanitised base name, and so, for a base name without astral
      characters, its first fifty characters sanitised one for one. */
  lemma ShortBasenameSpec(name: string)
    ensures var short := ShortBasename(name); var stem := Stem(name);
      && |short| == (if CodeUnits(stem) < 50 then CodeUnits(stem) else 50)
      && (forall i :: 0 <= i < |short| ==> IsSafeNameChar(short[i]))
      && short == Sanitize(stem)[..|short|]
      && (NoAstral(stem) ==>
            && |short| == (if |stem| < 50 then |stem| else 50)
            && forall i :: 0 <= i < |short| ==> short[i] == SafeChar(stem[i]))
  {
    SanitizeSpec(Stem(name));
  }

  /** What Math.random().toString(36) prints: "0", or "0." and base-36
      digits. */
  predicate RandomText(s: string) {
    s == "0" || (|s| >= 2 && s[0] == '0' && s[1] == '.' && forall i :: 2 <= i < |s| ==> IsLowerAscii(s[i]) || IsDigit(s[i]))
  }

  /** The stored name: the time, '_', up to thirteen base-36 digits of the
      random draw, '_', the shortened base name, and the lower-cased
      extension. */
  function StoredName(now: nat, random: string, name: string): string {
    DecimalString(now) + "_" + Substring(random, 2, 15) + "_" + ShortBasename(name) + Lower(ExtName(name))
  }

  /** A name without slashes whose only dot starts its extension has that
      extension. */
  lemma ExtNameOfPlain(prefix: string, ext: string)
    requires prefix != [] && '/' !in prefix && '.' !in prefix
    requires ext == [] || ExtensionShaped(ext)
    ensures ExtName(prefix + ext) == ext
    ensures '/' !in prefix + ext
  {
    var s := prefix + ext;
    forall i | 0 <= i < |s| ensures s[i] != '/' {
      if i < |prefix| { assert s[i] == prefix[i]; } else { assert s[i] == ext[i - |prefix|]; }
    }
    if ext == [] {
      assert s == prefix;
      SlashFreeSegment(s);
    } else {
      var k := |prefix|;
      forall i | k <= i < |s| ensures s[i] != '/' && (i > k ==> s[i] != '.') {
        assert s[i] == ext[i - k];
        if i > k {
          assert ext[1..][i - k - 1] == ext[i - k];
        }
      }
      assert s[k] == ext[0];
      assert s[k - 1] == prefix[k - 1];
      ExtNameAt(s, k);
      assert s[k..] == ext;
    }
  }

  /** Text with neither slashes nor dots. */
  predicate Plain(s: string) {
    forall i :: 0 <= i < |s| ==> s[i] != '/' && s[i] != '.'
  }

  lemma PlainAppend(a: string, b: string)
    requires Plain(a) && Plain(b)
    ensures Plain(a + b)
  {
    forall i | 0 <= i < |a + b| ensures (a + b)[i] != '/' && (a + b)[i] != '.' {
      if i < |a| { assert (a + b)[i] == a[i]; } else { assert (a + b)[i] == b[i - |a|]; }
    }
  }

  /** Everything before the extension of a stored name is plain: digits,
      underscores, base-36 digits and the sanitised base name. */
  lemma StoredPrefixPlain(now: nat, random: string, name: string)
    requires RandomText(random)
    ensures Plain(DecimalString(now) + "_" + Substring(random, 2, 15) + "_" + ShortBasename(name))
  {
    ShortPlain(name);
    DecimalPlain(now);
    DrawPlain(random);
    PlainFields(DecimalString(now), Substring(random, 2, 15), ShortBasename(name));
  }

  /** The sanitised base name holds neither slashes nor dots. */
  lemma ShortPlain(name: string)
    ensures Plain(ShortBasename(name))
  {
    ShortBasenameSpec(name);
  }

  /** A decimal rendering holds neither slashes nor dots. */
  lemma DecimalPlain(now: nat)
    ensures Plain(DecimalString(now))
  {
    var time := DecimalString(now);
    forall i | 0 <= i < |time| ensures time[i] != '/' && time[i] != '.' {
      assert IsDigit(time[i]);
    }
  }

  /** Plain fields joined by underscores make a plain text. */
  lemma PlainFields(a: string, b: string, c: string)
    requires Plain(a) && Plain(b) && Plain(c)
    ensures Plain(a + "_" + b + "_" + c)
  {
    assert Plain("_");
    PlainAppend(a, "_");
    PlainAppend(a + "_", b);
    PlainAppend(a + "_" + b, "_");
    PlainAppend(a + "_" + b + "_", c);
  }

  /** The digits of the random draw hold neither slashes nor dots. */
  lemma DrawPlain(random: string)
    requires RandomText(random)
    ensures Plain(Substring(random, 2, 15))
  {
    var draw := Substring(random, 2, 15);
    if |random| >= 2 {
      forall i | 0 <= i < |draw| ensures draw[i] != '/' && draw[i] != '.' {
        assert draw[i] == random[2 + i];
      }
    }
  }

  /** Lower-casing keeps an extension extension-shaped. */
  lemma LowerExtensionShaped(e: string)
    requires ExtensionShaped(e)
    ensures ExtensionShaped(Lower(e))
  {
    var l := Lower(e);
    forall i | 0 <= i < |e| ensures l[i] != '/' && (i > 0 ==> l[i] != '.') {
      LowerKeepsPunctuation(e, i);
      if i > 0 {
        assert e[1..][i - 1] == e[i];
      }
    }
    LowerKeepsPunctuation(e, 0);
    assert forall i :: 0 <= i < |l| - 1 ==> l[1..][i] == l[i + 1];
  }

  /** The stored name is a plain prefix followed by the lower-cased
      extension of the original name. */
  lemma StoredNameParts(now: nat, random: string, name: string)
    requires RandomText(random)
    ensures var prefix := DecimalString(now) + "_" + Substring(random, 2, 15) + "_" + ShortBasename(name);
      && prefix != [] && Plain(prefix)
      && (Lower(ExtName(name)) == [] || ExtensionShaped(Lower(ExtName(name))))
      && StoredName(now, random, name) == prefix + Lower(ExtName(name))
  {
    StoredPrefixPlain(now, random, name);
    if ExtName(name) != [] {
      LowerExtensionShaped(ExtName(name));
    }
  }

  /** The stored name starts with the upload time and an underscore. */
  lemma StoredNameStartsWithTime(now: nat, random: string, name: string)
    ensures var time := DecimalString(now);
      StoredName(now, random, name)[..|time| + 1] == time + "_"
  {
    var head := DecimalString(now) + "_";
    var k := |head|;
    var withDraw := head + Substring(random, 2, 15);
    var withSep := withDraw + "_";
    var withBase := withSep + ShortBasename(name);
    assert StoredName(now, random, name) == withBase + Lower(ExtName(name));
    AppendKeepsPrefix(withBase, Lower(ExtName(name)), k);
    AppendKeepsPrefix(withSep, ShortBasename(name), k);
    AppendKeepsPrefix(withDraw, "_", k);
    AppendKeepsPrefix(head, Substring(random, 2, 15), k);
  }

  lemma AppendKeepsPrefix(a: string, b: string, k: nat)
    requires k <= |a|
    ensures (a + b)[..k] == a[..k]
  {
  }

  /** The stored name never contains a slash, so a file is always written
      inside its directory; it starts with the upload time and keeps the
      lower-cased extension of the original name as its own extension. */
  lemma StoredNameSpec(now: nat, random: string, name: string)
    requires RandomText(random)
    ensures var stored := StoredName(now, random, name);
      && '/' !in stored
      && stored[..|DecimalString(now)| + 1] == DecimalString(now) + "_"
      && ExtName(stored) == Lower(ExtName(name))
  {
    StoredNameParts(now, random, name);
    ExtNameOfPlain(DecimalString(now) + "_" + Substring(random, 2, 15) + "_" + ShortBasename(name), Lower(ExtName(name)));
    StoredNameStartsWithTime(now, random, name);
  }

  /** A file the filter accepts is stored under a name whose extension is the
      one listed for its MIME type. */
  lemma AcceptedKeepsListedExtension(mimetype: string, name: string, now: nat, random: string)
    requires RandomText(random) && FileFilter(mimetype, name) == Accept
    ensures ExtName(StoredName(now, random, name)) == AllowedFileTypes[mimetype]
  {
    FileFilterSpec(mimetype, name);
    StoredNameSpec(now, random, name);
  }

  /** An upper-case extension passes the filter but is not cut off the base
      name, so it reappears, sanitised, before the lower-cased one:
      "photo.JPG" is stored as "…_photo_JPG.jpg". */
  lemma UpperCaseExtensionKept(stem: string)
    requires stem != [] && Plain(stem)
    ensures Stem(stem + ".JPG") == stem + ".JPG"
    ensures Sanitize(Stem(stem + ".JPG")) == Sanitize(stem) + "_JPG"
  {
    var name := stem + ".JPG";
    ExtNameOfPlain(stem, ".JPG");
    assert '/' !in name by {
      PlainAppend(stem, "");
      forall i | 0 <= i < |name| ensures name[i] != '/' {
        if i < |stem| { assert name[i] == stem[i]; }
      }
    }
    SlashFreeSegment(name);
    UpperJpg();
    assert !EndsWith(name, ".jpg") by {
      assert name[|name| - 3] == 'J';
    }
    SanitizeAppend(stem, ".JPG");
  }

  lemma UpperJpg()
    ensures Lower(".JPG") == ".jpg"
    ensures Sanitize(".JPG") == "_JPG"
  {
  }

  lemma {:induction false} SanitizeAppend(a: string, b: string)
    ensures Sanitize(a + b) == Sanitize(a) + Sanitize(b)
  {
    if a != [] {
      SanitizeAppend(a[1..], b);
      assert (a + b)[1..] == a[1..] + b;
    } else {
      assert a + b == b;
    }
  }

  /** The destination: the user's own sub-directory of the media directory
      for an authenticated request, the media directory itself otherwise. */
  function Destination(mediaDir: string, userId: Option<string>): string {
    if Present(userId) then mediaDir + "/" + userId.value else mediaDir
  }

  /** Each authenticated user's files go to a directory just below the media
      directory, and two different users never share one. */
  lemma DestinationSpec(mediaDir: string, a: Option<string>, b: Option<string>)
    ensures Present(a) ==> var d := Destination(mediaDir, a);
      |d| > |mediaDir| + 1 && d[..|mediaDir| + 1] == mediaDir + "/" && d[|mediaDir| + 1..] == a.value
    ensures !Present(a) ==> Destination(mediaDir, a) == mediaDir
    ensures Present(a) && Present(b) && a.value != b.value ==> Destination(mediaDir, a) != Destination(mediaDir, b)
  {
    if Present(a) && Present(b) && a.value != b.value {
      var da := Destination(mediaDir, a);
      var db := Destination(mediaDir, b);
      assert da[|mediaDir| + 1..] == a.value;
      assert db[|mediaDir| + 1..] == b.value;
    }
  }
}
