/**
 * The upload path of a recipe image (`image_directory_path`): the file is
 * renamed after the recipe, keeps only the extension of the uploaded name,
 * and is stored under a directory prefix followed by the author's username.
 */
module ImagePaths {

  const UPLOAD_DIR: string := "recipes/images/"
  const AUTHOR_SEPARATOR: string := "__"
  const EXTENSION_SEPARATOR: char := '.'

  /** Concatenates `pieces` with `sep` between neighbours (Python's `sep.join`). */
  function Join(pieces: seq<string>, sep: char): (s: string)
    decreases |pieces|
  {
    if pieces == [] then []
    else if |pieces| == 1 then pieces[0]
    else pieces[0] + [sep] + Join(pieces[1..], sep)
  }

  /**
   * Python's `s.split(sep)` for a one-character separator: the maximal runs
   * of `s` between occurrences of `sep`, in order. There is always at least
   * one piece (the empty string splits into one empty piece), no piece holds
   * the separator, and joining the pieces gives back `s`.
   */
  function Split(s: string, sep: char): (pieces: seq<string>)
    ensures |pieces| >= 1
    ensures forall i :: 0 <= i < |pieces| ==> sep !in pieces[i]
    ensures Join(pieces, sep) == s
    decreases |s|
  {
    if s == [] then [[]]
    else
      var rest := Split(s[1..], sep);
      if s[0] == sep then
        assert Join([[]] + rest, sep) == [sep] + Join(rest, sep) by {
          assert ([[]] + rest)[1..] == rest;
        }
        assert [sep] + s[1..] == s;
        [[]] + rest
      else
        var pieces := [[s[0]] + rest[0]] + rest[1..];
        assert Join(pieces, sep) == [s[0]] + Join(rest, sep) by {
          assert pieces[1..] == rest[1..];
          if |rest| > 1 {
            assert Join(rest, sep) == rest[0] + [sep] + Join(rest[1..], sep);
          }
        }
        assert [s[0]] + s[1..] == s;
        pieces
  }

  /** The last piece of `filename.split('.')`: what the source takes as the extension. */
  function Extension(filename: string): (ext: string)
    ensures IsLastSegment(ext, filename, EXTENSION_SEPARATOR)
  {
    var pieces := Split(filename, EXTENSION_SEPARATOR);
    LastPieceIsLastSegment(filename, EXTENSION_SEPARATOR);
    pieces[|pieces| - 1]
  }

  /** The stored name of a recipe image: `recipes/images/<username>__<recipe name>.<extension>`. */
  function ImageDirectoryPath(username: string, recipeName: string, filename: string): (path: string)
    ensures |UPLOAD_DIR| < |path| && path[..|UPLOAD_DIR|] == UPLOAD_DIR
    ensures Extension(path) == Extension(filename)
  {
    var base := UPLOAD_DIR + username + AUTHOR_SEPARATOR + recipeName;
    ExtensionOfDottedName(base, Extension(filename));
    base + [EXTENSION_SEPARATOR] + Extension(filename)
  }

  /** `ext` is a suffix of `s` that holds no `sep` and either is all of `s` or follows a `sep`. */
  predicate IsLastSegment(ext: string, s: string, sep: char) {
    && |ext| <= |s|
    && s[|s| - |ext|..] == ext
    && sep !in ext
    && (|ext| == |s| || s[|s| - |ext| - 1] == sep)
  }

  /** Splitting a string free of the separator yields that string alone. */
  lemma {:induction false} SplitWithoutSeparator(s: string, sep: char)
    requires sep !in s
    ensures Split(s, sep) == [s]
    decreases |s|
  {
    if s != [] {
      SplitWithoutSeparator(s[1..], sep);
      assert [s[0]] + s[1..] == s;
    }
  }

  /** A separator-free piece followed by the separator splits off as the first piece. */
  lemma {:induction false} SplitAfterPiece(p: string, sep: char, t: string)
    requires sep !in p
    ensures Split(p + [sep] + t, sep) == [p] + Split(t, sep)
    decreases |p|
  {
    if p == [] {
      assert p + [sep] + t == [sep] + t;
      assert ([sep] + t)[1..] == t;
    } else {
      var s := p + [sep] + t;
      assert s[1..] == p[1..] + [sep] + t;
      SplitAfterPiece(p[1..], sep, t);
      assert [p[0]] + p[1..] == p;
    }
  }

  /**
   * Splitting is the inverse of joining: separator-free pieces (at least
   * one) are recovered from their join.
   */
  lemma {:induction false} SplitJoin(pieces: seq<string>, sep: char)
    requires |pieces| >= 1
    requires forall i :: 0 <= i < |pieces| ==> sep !in pieces[i]
    ensures Split(Join(pieces, sep), sep) == pieces
    decreases |pieces|
  {
    if |pieces| == 1 {
      SplitWithoutSeparator(pieces[0], sep);
    } else {
      var tail := pieces[1..];
      assert forall i :: 0 <= i < |tail| ==> sep !in tail[i] by {
        forall i | 0 <= i < |tail| ensures sep !in tail[i] {
          assert tail[i] == pieces[i + 1];
        }
      }
      SplitJoin(tail, sep);
      SplitAfterPiece(pieces[0], sep, Join(tail, sep));
      assert [pieces[0]] + tail == pieces;
    }
  }

  /** A last segment of `rest` stays one after a prefix that ends in the separator. */
  lemma LastSegmentAfterSeparator(ext: string, prefix: string, rest: string, sep: char)
    requires prefix != [] && prefix[|prefix| - 1] == sep
    requires IsLastSegment(ext, rest, sep)
    ensures IsLastSegment(ext, prefix + rest, sep)
  {
    var s := prefix + rest;
    assert s[|s| - |ext|..] == rest[|rest| - |ext|..];
    assert s[|s| - |ext| - 1] == if |ext| == |rest| then prefix[|prefix| - 1] else rest[|rest| - |ext| - 1];
  }

  /** Of pieces free of the separator, the last one is the last segment of their join. */
  lemma {:induction false} LastPieceOfJoin(pieces: seq<string>, sep: char)
    requires |pieces| >= 1
    requires forall i :: 0 <= i < |pieces| ==> sep !in pieces[i]
    ensures IsLastSegment(pieces[|pieces| - 1], Join(pieces, sep), sep)
    decreases |pieces|
  {
    if |pieces| == 1 {
      assert pieces[0][0..] == pieces[0];
    } else {
      var tail := pieces[1..];
      assert forall i :: 0 <= i < |tail| ==> sep !in tail[i] by {
        forall i | 0 <= i < |tail| ensures sep !in tail[i] {
          assert tail[i] == pieces[i + 1];
        }
      }
      LastPieceOfJoin(tail, sep);
      assert tail[|tail| - 1] == pieces[|pieces| - 1];
      LastSegmentAfterSeparator(pieces[|pieces| - 1], pieces[0] + [sep], Join(tail, sep), sep);
      assert Join(pieces, sep) == pieces[0] + [sep] + Join(tail, sep);
    }
  }

  /** The last piece of a split is the text after the last separator, or all of `s` when there is none. */
  lemma LastPieceIsLastSegment(s: string, sep: char)
    ensures var pieces := Split(s, sep); IsLastSegment(pieces[|pieces| - 1], s, sep)
  {
    LastPieceOfJoin(Split(s, sep), sep);
  }

  /** Two last segments of the same string coincide. */
  lemma LastSegmentUnique(a: string, b: string, s: string, sep: char)
    requires IsLastSegment(a, s, sep) && IsLastSegment(b, s, sep)
    ensures a == b
  {
  }

  /**
   * The extension is exactly the text after the last `.` of the filename;
   * it never holds a `.`, and a filename without any `.` is its own extension.
   */
  lemma ExtensionIsTextAfterLastDot(filename: string)
    ensures IsLastSegment(Extension(filename), filename, EXTENSION_SEPARATOR)
    ensures EXTENSION_SEPARATOR !in Extension(filename)
    ensures EXTENSION_SEPARATOR !in filename ==> Extension(filename) == filename
  {
    LastPieceIsLastSegment(filename, EXTENSION_SEPARATOR);
    if EXTENSION_SEPARATOR !in filename {
      SplitWithoutSeparator(filename, EXTENSION_SEPARATOR);
    }
  }

  /** Whatever precedes the last `.` is dropped: `base.ext` has extension `ext`. */
  lemma ExtensionOfDottedName(base: string, ext: string)
    requires EXTENSION_SEPARATOR !in ext
    ensures Extension(base + [EXTENSION_SEPARATOR] + ext) == ext
  {
    var filename := base + [EXTENSION_SEPARATOR] + ext;
    ExtensionIsTextAfterLastDot(filename);
    assert filename[|filename| - |ext|..] == ext;
    LastSegmentUnique(Extension(filename), ext, filename, EXTENSION_SEPARATOR);
  }

  /**
   * Layout of the stored path: the upload directory, the author's username,
   * `__`, the recipe name, a `.`, and then the last segment of the uploaded
   * filename after its final `.`.
   */
  lemma ImagePathLayout(username: string, recipeName: string, filename: string)
    ensures var path := ImageDirectoryPath(username, recipeName, filename);
            var head := UPLOAD_DIR + username + AUTHOR_SEPARATOR + recipeName + [EXTENSION_SEPARATOR];
            && |head| <= |path|
            && path[..|head|] == head
            && path[..|UPLOAD_DIR|] == UPLOAD_DIR
            && IsLastSegment(path[|head|..], filename, EXTENSION_SEPARATOR)
  {
    ExtensionIsTextAfterLastDot(filename);
    var head := UPLOAD_DIR + username + AUTHOR_SEPARATOR + recipeName + [EXTENSION_SEPARATOR];
    var path := ImageDirectoryPath(username, recipeName, filename);
    assert path == head + Extension(filename);
    assert path[|head|..] == Extension(filename);
  }

  /**
   * The original base name never reaches the stored path: two uploads with
   * the same extension get the same path, which ends in `<recipe name>.<ext>`.
   */
  lemma ImagePathIgnoresBaseName(username: string, recipeName: string, base1: string, base2: string, ext: string)
    requires EXTENSION_SEPARATOR !in ext
    ensures ImageDirectoryPath(username, recipeName, base1 + [EXTENSION_SEPARATOR] + ext)
         == ImageDirectoryPath(username, recipeName, base2 + [EXTENSION_SEPARATOR] + ext)
         == UPLOAD_DIR + username + AUTHOR_SEPARATOR + recipeName + [EXTENSION_SEPARATOR] + ext
  {
    ExtensionOfDottedName(base1, ext);
    ExtensionOfDottedName(base2, ext);
  }

  /** For a fixed author and recipe, different extensions give different paths. */
  lemma ImagePathDeterminesExtension(username: string, recipeName: string, filename1: string, filename2: string)
    requires ImageDirectoryPath(username, recipeName, filename1) == ImageDirectoryPath(username, recipeName, filename2)
    ensures Extension(filename1) == Extension(filename2)
  {
    var head := UPLOAD_DIR + username + AUTHOR_SEPARATOR + recipeName + [EXTENSION_SEPARATOR];
    assert ImageDirectoryPath(username, recipeName, filename1)[|head|..] == Extension(filename1);
    assert ImageDirectoryPath(username, recipeName, filename2)[|head|..] == Extension(filename2);
  }
}
