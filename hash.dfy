/** The address-bar side of navigation: how a slide id is read back out of a
    URL by `handleHashChange`, and which fragment `init` writes. */
module Hash {
  import opened Wrappers

  /** Index of the first occurrence of `c` in `s`, if any. */
  function Find(s: string, c: char): (r: Option<nat>)
    ensures r.None? <==> c !in s
    ensures r.Some? ==> r.value < |s| && s[r.value] == c && c !in s[..r.value]
  {
    if s == [] then None
    else if s[0] == c then Some(0)
    else match Find(s[1..], c)
      case None => None
      case Some(j) =>
        assert s[..j + 1] == [s[0]] + s[1..][..j];
        Some(j + 1)
  }

  /** `url.split('#')[1]`: the text between the first `'#'` and the next
      `'#'` (or the end), or nothing when `url` holds no `'#'`. */
  function SplitSecond(url: string): (r: Option<string>)
    ensures r.None? <==> '#' !in url
    ensures r.Some? ==> '#' !in r.value
  {
    match Find(url, '#')
    case None => None
    case Some(p) =>
      var rest := url[p + 1..];
      match Find(rest, '#')
      case None => Some(rest)
      case Some(q) => Some(rest[..q])
  }

  /** The id `handleHashChange` extracts from a new URL before falling back
      to the first slide: `(url.split('#')[1] || '/').substr(1)`. */
  function FragmentId(url: string): string
  {
    var piece := SplitSecond(url);
    var raw := if piece.Some? && piece.value != "" then piece.value else "/";
    raw[1..]
  }

  /** The fragment `init` assigns to the address bar, given the current one. */
  function InitHash(hash: string): (r: string)
    ensures r != hash
    ensures r == "#" || r == "#/"
    ensures r == "#" <==> hash == "#/"
  {
    if hash == "#/" then "#" else "#/"
  }

  /** The fragment `next` and `jump` assign for a target slide id. */
  function SlideHash(id: string): string
  {
    "#/" + id
  }

  lemma {:induction false} FindAt(pre: string, c: char, post: string)
    requires c !in pre
    ensures Find(pre + [c] + post, c) == Some(|pre|)
  {
    if pre != [] {
      assert (pre + [c] + post)[1..] == pre[1..] + [c] + post;
      FindAt(pre[1..], c, post);
    }
  }

  /** SplitSecond picks out exactly the segment after the first `'#'`:
      any URL of the shape pre + "#" + seg + rest, with no `'#'` in `pre` or
      `seg` and `rest` empty or starting with `'#'`, yields `seg`. */
  lemma SplitSecondOf(pre: string, seg: string, rest: string)
    requires '#' !in pre && '#' !in seg
    requires rest == [] || rest[0] == '#'
    ensures SplitSecond(pre + "#" + seg + rest) == Some(seg)
  {
    var url := pre + "#" + seg + rest;
    assert url == pre + ['#'] + (seg + rest);
    FindAt(pre, '#', seg + rest);
    assert url[|pre| + 1..] == seg + rest;
    if rest == [] {
      assert seg + rest == seg;
    } else {
      assert seg + rest == seg + ['#'] + rest[1..];
      FindAt(seg, '#', rest[1..]);
      assert (seg + rest)[..|seg|] == seg;
    }
  }

  /** The id read from a URL whose fragment starts with `#` + `seg`, up to
      the end or the next `'#'`: `seg` without its first character. */
  lemma FragmentIdOfSegment(url: string, base: string, seg: string, rest: string)
    requires '#' !in base && '#' !in seg && seg != ""
    requires rest == [] || rest[0] == '#'
    requires url == base + "#" + seg + rest
    ensures FragmentId(url) == seg[1..]
  {
    SplitSecondOf(base, seg, rest);
  }

  /** Round trip: the URL after `next` or `jump` wrote `'#/' + id` (on a
      page address `base` with no fragment) parses back to `id`. */
  lemma FragmentIdOfSlideHash(base: string, id: string)
    requires '#' !in base && '#' !in id
    ensures FragmentId(base + SlideHash(id)) == id
  {
    var seg := ['/'] + id;
    assert base + SlideHash(id) == base + "#" + seg + [];
    FragmentIdOfSegment(base + SlideHash(id), base, seg, []);
    assert seg[1..] == id;
  }

  /** A page address with no `'#'`, followed by nothing, `#` or `#/`,
      carries no id, so the handler falls back to the first slide. */
  lemma FragmentIdOfRoot(base: string, hash: string)
    requires '#' !in base
    requires hash == "" || hash == "#" || hash == "#/"
    ensures FragmentId(base + hash) == ""
  {
    if hash == "" {
      assert base + hash == base;
    } else if hash == "#" {
      SplitSecondOf(base, "", []);
      assert base + hash == base + "#" + "" + [];
    } else {
      SplitSecondOf(base, "/", []);
      assert base + hash == base + "#" + "/" + [];
    }
  }

  /** Whatever the current fragment, the one `init` writes carries no id. */
  lemma InitHashIsRoot(base: string, hash: string)
    requires '#' !in base
    ensures FragmentId(base + InitHash(hash)) == ""
  {
    FragmentIdOfRoot(base, InitHash(hash));
  }

  /** Debug mode is reached by any fragment of `#`, one character other
      than `'#'` (usually `/`), then `debug`, up to the end or the next
      `'#'`: `substr(1)` drops whatever the first character is. */
  lemma DebugFragment(base: string, c: char, rest: string)
    requires '#' !in base && c != '#'
    requires rest == [] || rest[0] == '#'
    ensures FragmentId(base + "#" + [c] + "debug" + rest) == "debug"
  {
    var seg := [c] + "debug";
    assert base + "#" + [c] + "debug" + rest == base + "#" + seg + rest;
    FragmentIdOfSegment(base + "#" + [c] + "debug" + rest, base, seg, rest);
    assert seg[1..] == "debug";
  }

  /** The `#debug/` form loses its first character to `substr(1)` and reads
      as `ebug/`, not as the debug id. */
  lemma MisspeltDebugFragment(base: string)
    requires '#' !in base
    ensures FragmentId(base + "#debug/") == "ebug/"
  {
    var seg := "debug/";
    assert base + "#debug/" == base + "#" + seg + [];
    FragmentIdOfSegment(base + "#debug/", base, seg, []);
  }
}
