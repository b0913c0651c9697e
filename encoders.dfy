/** Choosing the image encoder from a file extension (`GetEncoder`). */
module Encoders {
  import opened Wrappers
  import opened Text

  /** The three encoders the function can hand back. */
  datatype Codec = Png | Jpeg | Gif

  /** `extension.Replace(".", "")`: every dot removed, wherever it stands. */
  function StripDots(extension: string): (r: string)
    ensures r == Without(extension, '.')
    ensures '.' !in r
  {
    ReplaceCharByEmpty(extension, '.');
    Replace(extension, ".", "").value
  }

  /** `s` starts with the lower-case literal `p` when ASCII case is ignored. */
  predicate StartsWithIgnoreCase(s: string, p: string)
    decreases |p|
  {
    p == [] || (s != [] && LowerChar(s[0]) == p[0] && StartsWithIgnoreCase(s[1..], p[1..]))
  }

  /** One of the alternatives of `gif|png|jpe?g` matches at the start of `s`. */
  predicate AlternativeAt(s: string) {
    StartsWithIgnoreCase(s, "gif") || StartsWithIgnoreCase(s, "png") ||
    StartsWithIgnoreCase(s, "jpg") || StartsWithIgnoreCase(s, "jpeg")
  }

  /** `Regex.IsMatch(s, "gif|png|jpe?g", RegexOptions.IgnoreCase)`: the
      pattern is not anchored, so every start position is tried in turn. */
  function IsMatch(s: string): bool
    decreases |s|
  {
    if s == [] then false else AlternativeAt(s) || IsMatch(s[1..])
  }

  /** The scan finds a match exactly when some start position has one. */
  lemma IsMatchSomewhere(s: string)
    ensures IsMatch(s) <==> exists i :: 0 <= i < |s| && AlternativeAt(s[i..])
  {
    if IsMatch(s) {
      IsMatchHasStart(s);
    }
    if i :| 0 <= i < |s| && AlternativeAt(s[i..]) {
      StartGivesMatch(s, i);
    }
  }

  lemma {:induction false} IsMatchHasStart(s: string)
    requires IsMatch(s)
    ensures exists i :: 0 <= i < |s| && AlternativeAt(s[i..])
    decreases |s|
  {
    if AlternativeAt(s) {
      assert s[0..] == s;
    } else {
      IsMatchHasStart(s[1..]);
      var i :| 0 <= i < |s[1..]| && AlternativeAt(s[1..][i..]);
      assert s[1..][i..] == s[i + 1..];
    }
  }

  lemma {:induction false} StartGivesMatch(s: string, i: int)
    requires 0 <= i < |s| && AlternativeAt(s[i..])
    ensures IsMatch(s)
    decreases i
  {
    if i == 0 {
      assert s[0..] == s;
    } else {
      assert s[1..][i - 1..] == s[i..];
      StartGivesMatch(s[1..], i - 1);
    }
  }

  /** The `switch` on the lower-cased name. */
  function SelectByName(name: string): (r: Option<Codec>)
    ensures r == Some(Png) <==> name == "png"
    ensures r == Some(Jpeg) <==> name == "jpg" || name == "jpeg"
    ensures r == Some(Gif) <==> name == "gif"
  {
    if name == "png" then Some(Png)
    else if name == "jpg" then Some(Jpeg)
    else if name == "jpeg" then Some(Jpeg)
    else if name == "gif" then Some(Gif)
    else None
  }

  /** `GetEncoder(extension)`: dots removed, the regular expression as a
      prefilter, then the `switch` on the lower-cased name; `None` is the
      null encoder. */
  function GetEncoder(extension: string): (r: Option<Codec>)
    ensures r == Some(Png) <==> Lower(Without(extension, '.')) == "png"
    ensures r == Some(Jpeg) <==> Lower(Without(extension, '.')) in {"jpg", "jpeg"}
    ensures r == Some(Gif) <==> Lower(Without(extension, '.')) == "gif"
    ensures r == None <==> Lower(Without(extension, '.')) !in {"png", "jpg", "jpeg", "gif"}
  {
    var e := StripDots(extension);
    PrefilterRedundant(e);
    if IsMatch(e) then SelectByName(Lower(e)) else None
  }

  /** Every name the `switch` accepts already passes the regular expression,
      so the prefilter never changes the outcome. */
  lemma PrefilterRedundant(e: string)
    ensures SelectByName(Lower(e)).Some? ==> IsMatch(e)
  {
    if SelectByName(Lower(e)).Some? {
      MatchesOwnLowerCase(e);
      assert e != [];
      assert AlternativeAt(e);
    }
  }

  /** Every string matches its own lower-cased form. */
  lemma {:induction false} MatchesOwnLowerCase(s: string)
    ensures StartsWithIgnoreCase(s, Lower(s))
    decreases |s|
  {
    if s != [] {
      MatchesOwnLowerCase(s[1..]);
      assert Lower(s)[1..] == Lower(s[1..]);
    }
  }

  /** The prefilter is not the switch: names that merely contain a supported
      name pass it and still get no encoder. */
  lemma PrefilterAdmitsMore()
    ensures IsMatch("pngx") && GetEncoder("pngx") == None
    ensures IsMatch("agif") && GetEncoder("agif") == None
  {
    PngxPassesPrefilter();
    AgifPassesPrefilter();
  }

  lemma PngxPassesPrefilter()
    ensures IsMatch("pngx") && GetEncoder("pngx") == None
  {
    assert AlternativeAt("pngx");
    WithoutAbsent("pngx", '.');
    LowerOfLowerCase("pngx");
  }

  lemma AgifPassesPrefilter()
    ensures IsMatch("agif") && GetEncoder("agif") == None
  {
    assert "agif"[1..] == "gif";
    assert AlternativeAt("gif");
    WithoutAbsent("agif", '.');
    LowerOfLowerCase("agif");
  }

  /** Dots anywhere and ASCII case do not matter. */
  lemma GetEncoderUpperPng()
    ensures GetEncoder(".PNG") == Some(Png)
  {
    assert Without(".PNG", '.') == "PNG";
    assert Lower("PNG") == "png";
  }

  lemma GetEncoderJpg()
    ensures GetEncoder(".jpg") == Some(Jpeg)
  {
    assert Without(".jpg", '.') == "jpg";
    LowerOfLowerCase("jpg");
  }

  lemma GetEncoderDottedGif()
    ensures GetEncoder(".g.i.f") == Some(Gif)
  {
    assert Without(".g.i.f", '.') == "gif";
    LowerOfLowerCase("gif");
  }

  /** An empty extension has no encoder. */
  lemma GetEncoderEmpty()
    ensures GetEncoder("") == None
  {
  }
}
