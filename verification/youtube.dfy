/** `YouTubeLongForm`: the pattern
    `\(https?://\S*?youtu\S*?/watch\?v=(?P<video_ID>\S+?)\)`, with the
    engine's default priority.

    After `(http://` or `(https://`, a match is a run of non-whitespace
    characters in which `youtu` occurs at some `i`, `/watch?v=` at some
    `j >= i + 5`, and `)` at some `e >= j + 10`; the video ID is what lies
    between `/watch?v=` and that `)`. The three lazy quantifiers make the
    regex take the first choice in backtracking order, that is the least
    `(i, j, e)` in lexicographic order; `Locate` finds it, and shows it is
    even least in each component. */
module YouTubePattern {
  import opened Base

  /** A reading of the text as a YouTube link, with `youtu` at `i`,
      `/watch?v=` at `j` and the closing `)` at `e`. */
  predicate Decomposes(s: string, i: int, j: int, e: int) {
    && UrlStart(s, 0).Some?
    && UrlStart(s, 0).value <= i
    && At(s, "youtu", i)
    && i + 5 <= j
    && At(s, "/watch?v=", j)
    && j + 10 <= e < |s|
    && s[e] == ')'
    && NoSpace(s, UrlStart(s, 0).value, e)
  }

  /** The first `)` at or after `from`. */
  function FindClose(s: string, from: nat): (r: Option<nat>)
    ensures r.Some? ==> from <= r.value < |s| && s[r.value] == ')'
    ensures r.Some? ==> forall m :: from <= m < r.value ==> s[m] != ')'
    ensures r.None? ==> forall m :: from <= m < |s| ==> s[m] != ')'
  {
    match Find(s, ")", from)
    case None =>
      assert forall m :: from <= m < |s| ==> s[m] != ')' by {
        forall m | from <= m < |s| ensures s[m] != ')' {
          assert !At(s, ")", m);
          assert s[m..m + 1] == [s[m]];
        }
      }
      None
    case Some(e) =>
      assert s[e..e + 1] == [s[e]];
      assert forall m :: from <= m < e ==> s[m] != ')' by {
        forall m | from <= m < e ensures s[m] != ')' {
          assert !At(s, ")", m);
          assert s[m..m + 1] == [s[m]];
        }
      }
      Some(e)
  }

  /** The least reading: first `youtu`, then the first `/watch?v=` after
      it, then the first `)` after that, all before any whitespace. */
  function Locate(s: string): (r: Option<(nat, nat, nat)>)
    ensures r.Some? ==> Decomposes(s, r.value.0, r.value.1, r.value.2)
  {
    match UrlStart(s, 0)
    case None => None
    case Some(a) =>
      match Find(s, "youtu", a)
      case None => None
      case Some(i) =>
        match Find(s, "/watch?v=", i + 5)
        case None => None
        case Some(j) =>
          match FindClose(s, j + 10)
          case None => None
          case Some(e) =>
            if NoSpace(s, a, e) then Some((i, j, e)) else None
  }

  /** `Locate` finds a reading whenever there is one, and its reading is
      least in each component. */
  lemma LocateIsLeast(s: string)
    ensures Locate(s).Some? ==> forall i, j, e :: Decomposes(s, i, j, e) ==>
              Locate(s).value.0 <= i && Locate(s).value.1 <= j && Locate(s).value.2 <= e
    ensures Locate(s).None? ==> forall i, j, e :: !Decomposes(s, i, j, e)
  {
    if UrlStart(s, 0).Some? {
      var a := UrlStart(s, 0).value;
      if Find(s, "youtu", a).Some? {
        var i := Find(s, "youtu", a).value;
        if Find(s, "/watch?v=", i + 5).Some? {
          var j := Find(s, "/watch?v=", i + 5).value;
          if FindClose(s, j + 10).Some? {
            var e := FindClose(s, j + 10).value;
            forall i', j', e' | Decomposes(s, i', j', e') ensures i <= i' && j <= j' && e <= e' && NoSpace(s, a, e) {
              assert i <= i';
              assert j <= j';
              assert e <= e';
            }
          }
        }
      }
    }
  }

  /** The matcher: characters consumed and `video_ID`. */
  function Match(s: string): (r: Option<(nat, string)>)
    ensures r.Some? ==> 0 < r.value.0 <= |s| && s[r.value.0 - 1] == ')'
  {
    match Locate(s)
    case None => None
    case Some((i, j, e)) => Some((e + 1, s[j + 9..e]))
  }

  /** The least reading, in each component: the one the lazy quantifiers
      take. */
  ghost predicate Least(s: string, i: int, j: int, e: int) {
    && Decomposes(s, i, j, e)
    && forall i', j', e' :: Decomposes(s, i', j', e') ==> i <= i' && j <= j' && e <= e'
  }

  /** The matcher finds a link exactly when the text has a reading, and
      then reports the least one: consumed up to its `)`, with the ID
      between `/watch?v=` and that `)`. */
  lemma MatchSpec(s: string)
    ensures Match(s).None? <==> forall i, j, e :: !Decomposes(s, i, j, e)
    ensures Match(s).Some? ==> exists i, j, e :: Least(s, i, j, e) && Match(s).value == (e + 1, s[j + 9..e])
  {
    LocateIsLeast(s);
    if Locate(s).Some? {
      var (i, j, e) := Locate(s).value;
      assert Least(s, i, j, e);
      assert Match(s) == Some((e + 1, s[j + 9..e]));
    } else {
      assert Match(s).None?;
    }
  }

  /** The captured ID is non-empty and holds no whitespace; the consumed
      text ends with `)`. */
  lemma MatchShape(s: string)
    requires Match(s).Some?
    ensures var (n, id) := Match(s).value;
            && 0 < |id| && 0 < n <= |s| && s[n - 1] == ')'
            && forall m :: 0 <= m < |id| ==> !IsSpace(id[m])
  {
    var (i, j, e) := Locate(s).value;
    var id := s[j + 9..e];
    forall m | 0 <= m < |id| ensures !IsSpace(id[m]) {
      assert id[m] == s[j + 9 + m];
    }
  }

  /** The example link, `(https://www.youtube.com/watch?v=x-J2KzQb5lI)`. */
  predicate IsExample(s: string) {
    s == "(https://" + "www." + "youtu" + "be.com" + "/watch?v=" + "x-J2KzQb5lI" + ")"
  }

  lemma ExampleScheme(s: string)
    requires IsExample(s)
    ensures |s| == 45 && s[44] == ')' && UrlStart(s, 0) == Some(9)
  {
    var rest := "www." + "youtu" + "be.com" + "/watch?v=" + "x-J2KzQb5lI" + ")";
    assert s == "" + "(https://" + rest;
    AtJoin("", "(https://", rest);
  }

  lemma ExampleMarkers(s: string)
    requires IsExample(s)
    ensures At(s, "youtu", 13) && At(s, "/watch?v=", 24)
  {
    AtJoin("(https://" + "www.", "youtu", "be.com" + "/watch?v=" + "x-J2KzQb5lI" + ")");
    AtJoin("(https://" + "www." + "youtu" + "be.com", "/watch?v=", "x-J2KzQb5lI" + ")");
  }

  lemma ExampleNoSpace(s: string)
    requires IsExample(s)
    ensures |s| == 45 && NoSpace(s, 9, 44)
  {
    var u := "www." + "youtu" + "be.com" + "/watch?v=" + "x-J2KzQb5lI";
    assert s == "(https://" + u + ")";
    assert UrlChars(u);
    forall m | 9 <= m < 44 ensures !IsSpace(s[m]) {
      assert s[m] == u[m - 9];
    }
  }

  lemma ExampleReading(s: string)
    requires IsExample(s)
    ensures Decomposes(s, 13, 24, 44) && UrlStart(s, 0) == Some(9)
  {
    ExampleScheme(s);
    ExampleMarkers(s);
    ExampleNoSpace(s);
  }

  lemma ExampleFirst(s: string)
    requires IsExample(s)
    ensures forall m :: 9 <= m < 13 ==> !At(s, "youtu", m)
    ensures forall m :: 18 <= m < 24 ==> !At(s, "/watch?v=", m)
    ensures forall m :: 34 <= m < 44 ==> s[m] != ')'
    ensures s[33..44] == "x-J2KzQb5lI"
  {
    var head := "(https://" + "www.";
    var mid := "youtu" + "be.com";
    var id := "x-J2KzQb5lI";
    assert s == head + mid + "/watch?v=" + id + ")";
    forall m | 9 <= m < 13 ensures !At(s, "youtu", m) {
      assert s[m] == head[m] != 'y';
      NotAtByChar(s, "youtu", m, 0);
    }
    forall m | 18 <= m < 24 ensures !At(s, "/watch?v=", m) {
      assert s[m] == mid[m - 13] != '/';
      NotAtByChar(s, "/watch?v=", m, 0);
    }
    forall m | 34 <= m < 44 ensures s[m] != ')' {
      assert s[m] == id[m - 33];
    }
    assert s[33..44] == id;
  }

  /** A reading before which no earlier `youtu`, `/watch?v=` or `)` fits
      is the least one. */
  lemma ReadingIsLeast(s: string, i: nat, j: nat, e: nat)
    requires Decomposes(s, i, j, e)
    requires forall m :: UrlStart(s, 0).value <= m < i ==> !At(s, "youtu", m)
    requires forall m :: i + 5 <= m < j ==> !At(s, "/watch?v=", m)
    requires forall m :: j + 10 <= m < e ==> s[m] != ')'
    ensures Least(s, i, j, e)
  {
    forall i', j', e' | Decomposes(s, i', j', e') ensures i <= i' && j <= j' && e <= e' {
      assert i <= i';
      assert j <= j';
    }
  }

  /** The least reading is the one the matcher reports. */
  lemma LeastIsMatch(s: string, i: int, j: int, e: int)
    requires Least(s, i, j, e)
    ensures Match(s) == Some((e + 1, s[j + 9..e]))
  {
    LocateBelow(s, i, j, e);
    var v := Locate(s).value;
    LeastBelow(s, i, j, e, v.0, v.1, v.2);
  }

  /** Whenever there is a reading, `Locate` finds one at or before it. */
  lemma LocateBelow(s: string, i: int, j: int, e: int)
    requires Decomposes(s, i, j, e)
    ensures Locate(s).Some? && Decomposes(s, Locate(s).value.0, Locate(s).value.1, Locate(s).value.2)
    ensures Locate(s).value.0 <= i && Locate(s).value.1 <= j && Locate(s).value.2 <= e
  {
    LocateIsLeast(s);
  }

  lemma LeastBelow(s: string, i: int, j: int, e: int, i': int, j': int, e': int)
    requires Least(s, i, j, e) && Decomposes(s, i', j', e')
    ensures i <= i' && j <= j' && e <= e'
  {
  }

  lemma Example(s: string)
    requires IsExample(s)
    ensures Match(s) == Some((45, "x-J2KzQb5lI"))
  {
    ExampleReading(s);
    ExampleFirst(s);
    ReadingIsLeast(s, 13, 24, 44);
    LeastIsMatch(s, 13, 24, 44);
  }
}
