/**
 * The extension dispatch of `convert_to_dynamic_image` in
 * stellacomp/src/utils.rs. The extension is the last piece of the path split
 * on '.'; "CR3" goes to the RAW decoder, "tiff" to the raster loader and
 * anything else ends the run with the "Unsupported file type." panic. The
 * decoders themselves are not part of this model.
 */
module Utils {
  import opened Wrappers

  /**
   * `s.split(sep)`: the pieces between the occurrences of sep, from left to
   * right. There is always at least one piece ("" splits into [""]).
   */
  function Split(s: string, sep: char): (parts: seq<string>)
    ensures |parts| >= 1
    decreases |s|
  {
    if s == [] then [[]]
    else
      var init := Split(s[..|s| - 1], sep);
      var c := s[|s| - 1];
      if c == sep then init + [[]]
      else init[..|init| - 1] + [init[|init| - 1] + [c]]
  }

  /** No piece contains sep. */
  lemma {:induction false} SplitPiecesAvoidSep(s: string, sep: char)
    ensures forall k :: 0 <= k < |Split(s, sep)| ==> sep !in Split(s, sep)[k]
    decreases |s|
  {
    if s != [] {
      var s' := s[..|s| - 1];
      var init := Split(s', sep);
      var c := s[|s| - 1];
      SplitPiecesAvoidSep(s', sep);
      if c == sep {
        assert Split(s, sep) == init + [[]];
      } else {
        var parts := init[..|init| - 1] + [init[|init| - 1] + [c]];
        assert Split(s, sep) == parts;
        assert forall k :: 0 <= k < |parts| - 1 ==> parts[k] == init[k];
      }
    }
  }

  /** The last piece is the sep-free tail of s after its last sep, or all of s when there is none. */
  lemma {:induction false} SplitLastIsTail(s: string, sep: char)
    ensures var last := Split(s, sep)[|Split(s, sep)| - 1];
      sep !in last && |last| <= |s| && last == s[|s| - |last|..] &&
      (|last| < |s| ==> s[|s| - |last| - 1] == sep)
    decreases |s|
  {
    SplitPiecesAvoidSep(s, sep);
    if s != [] {
      var s' := s[..|s| - 1];
      var init := Split(s', sep);
      var c := s[|s| - 1];
      SplitLastIsTail(s', sep);
      var lastInit := init[|init| - 1];
      if c == sep {
        assert Split(s, sep) == init + [[]];
      } else {
        var parts := init[..|init| - 1] + [lastInit + [c]];
        assert Split(s, sep) == parts;
        var n := |s| - |lastInit| - 1;
        assert s' == s[..|s| - 1];
        assert lastInit == s'[n..];
        assert s[n..] == s[n..|s| - 1] + [c];
        assert s[n..|s| - 1] == s'[n..];
      }
    }
  }

  /** The inverse of Split: the pieces glued back together with sep between them. */
  function Join(parts: seq<string>, sep: char): (s: string)
    requires |parts| >= 1
    decreases |parts|
  {
    if |parts| == 1 then parts[0]
    else Join(parts[..|parts| - 1], sep) + [sep] + parts[|parts| - 1]
  }

  lemma {:induction false} JoinExtendsLast(parts: seq<string>, sep: char, tail: string)
    requires |parts| >= 1
    ensures Join(parts[..|parts| - 1] + [parts[|parts| - 1] + tail], sep) == Join(parts, sep) + tail
  {
    var n := |parts|;
    var parts' := parts[..n - 1] + [parts[n - 1] + tail];
    if n > 1 {
      assert parts'[..n - 1] == parts[..n - 1];
    }
  }

  /** Splitting loses nothing: joining the pieces gives back the path. */
  lemma {:induction false} JoinSplit(s: string, sep: char)
    ensures Join(Split(s, sep), sep) == s
    decreases |s|
  {
    if s != [] {
      var s' := s[..|s| - 1];
      var init := Split(s', sep);
      var c := s[|s| - 1];
      assert s' + [c] == s;
      JoinSplit(s', sep);
      if c == sep {
        var parts := init + [[]];
        assert Split(s, sep) == parts;
        assert parts[..|parts| - 1] == init;
        assert Join(parts, sep) == Join(init, sep) + [sep] + [];
      } else {
        assert Split(s, sep) == init[..|init| - 1] + [init[|init| - 1] + [c]];
        JoinExtendsLast(init, sep, [c]);
      }
    }
  }

  /**
   * `file_path.split(".").last().unwrap()`: the text after the last '.', or
   * the whole path when it has no '.'.
   */
  function Extension(path: string): (ext: string)
    ensures |ext| <= |path|
  {
    var parts := Split(path, '.');
    SplitLastIsTail(path, '.');
    parts[|parts| - 1]
  }

  /** The extension has no '.', is a suffix of the path, and is preceded by '.' unless it is the whole path. */
  lemma ExtensionIsLastPiece(path: string)
    ensures '.' !in Extension(path)
    ensures |Extension(path)| <= |path| && Extension(path) == path[|path| - |Extension(path)|..]
    ensures |Extension(path)| < |path| ==> path[|path| - |Extension(path)| - 1] == '.'
  {
    SplitPiecesAvoidSep(path, '.');
    SplitLastIsTail(path, '.');
  }

  /** A path without '.' is its own extension. */
  lemma ExtensionWithoutDot(path: string)
    requires '.' !in path
    ensures Extension(path) == path
  {
    ExtensionIsLastPiece(path);
  }

  /** The extension is exactly what follows the last '.' of the path. */
  lemma ExtensionAfterLastDot(path: string, i: nat)
    requires i < |path| && path[i] == '.' && '.' !in path[i + 1..]
    ensures Extension(path) == path[i + 1..]
  {
    ExtensionIsLastPiece(path);
  }

  /** The loaders `convert_to_dynamic_image` can hand a path to. */
  datatype Loader = RawDecoder | RasterOpen

  /** None is the "Unsupported file type." panic. Matching is exact and case-sensitive. */
  function Dispatch(path: string): (loader: Option<Loader>)
    ensures loader == Some(RawDecoder) <==> Extension(path) == "CR3"
    ensures loader == Some(RasterOpen) <==> Extension(path) == "tiff"
    ensures loader == None <==> Extension(path) != "CR3" && Extension(path) != "tiff"
  {
    var ext := Extension(path);
    if ext == "CR3" then Some(RawDecoder)
    else if ext == "tiff" then Some(RasterOpen)
    else None
  }

  /** Canon RAW files go to the RAW decoder, TIFF files to the raster loader, also after earlier dots. */
  lemma DispatchSelectsLoader()
    ensures Dispatch("IMG_0001.CR3") == Some(RawDecoder)
    ensures Dispatch("night.sky.tiff") == Some(RasterOpen)
  {
    ExtensionAfterLastDot("IMG_0001.CR3", 8);
    ExtensionAfterLastDot("night.sky.tiff", 9);
  }

  /** Other spellings of the two known extensions are rejected. */
  lemma DispatchIsCaseSensitive()
    ensures Dispatch("IMG_0001.cr3") == None
    ensures Dispatch("stack.TIFF") == None
    ensures Dispatch("stack.tif") == None
  {
    ExtensionAfterLastDot("IMG_0001.cr3", 8);
    ExtensionAfterLastDot("stack.TIFF", 5);
    ExtensionAfterLastDot("stack.tif", 5);
  }

  /** A path ending in '.' has the empty extension and is rejected. */
  lemma DispatchTrailingDot(path: string)
    requires |path| > 0 && path[|path| - 1] == '.'
    ensures Extension(path) == ""
    ensures Dispatch(path) == None
  {
    ExtensionAfterLastDot(path, |path| - 1);
  }

  /** A '.' only in a directory name makes the extension run across the '/'; it is rejected. */
  lemma DispatchDotInDirectory()
    ensures Extension("a.d/img") == "d/img"
    ensures Dispatch("a.d/img") == None
  {
    ExtensionAfterLastDot("a.d/img", 1);
  }

  /** A path without any '.' is its own extension: "CR3" and "tiff" alone are accepted. */
  lemma DispatchWithoutDot()
    ensures Dispatch("CR3") == Some(RawDecoder)
    ensures Dispatch("image") == None
  {
    ExtensionWithoutDot("CR3");
    ExtensionWithoutDot("image");
  }
}
