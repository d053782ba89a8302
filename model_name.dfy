/** get_model_name: the bare class name out of the text of a class, as in
    "<class 'sklearn.svm.SVC'>". */
module ModelName {

  /** Python's str.split('.'): never empty; consecutive, leading and trailing
      dots give empty segments. */
  function Split(s: string): (r: seq<string>)
    ensures |r| >= 1
    ensures forall i :: 0 <= i < |r| ==> '.' !in r[i]
  {
    if s == [] then [[]]
    else if s[0] == '.' then [[]] + Split(s[1..])
    else
      var rest := Split(s[1..]);
      [[s[0]] + rest[0]] + rest[1..]
  }

  /** '.'.join(segments) */
  function Join(segments: seq<string>): string
    requires |segments| >= 1
  {
    if |segments| == 1 then segments[0] else segments[0] + "." + Join(segments[1..])
  }

  /** Python's t[:-2]: all but the last two characters, or nothing. */
  function DropLastTwo(t: string): (r: string)
    ensures |r| == if |t| >= 2 then |t| - 2 else 0
    ensures r == t[..|r|]
  {
    if |t| >= 2 then t[..|t| - 2] else []
  }

  function LastSegment(s: string): string
  {
    var segments := Split(s);
    segments[|segments| - 1]
  }

  /** str(model.__class__).split('.')[-1][:-2], given the class text: a piece
      of the text that starts right after its last dot. */
  function GetModelName(classText: string): (r: string)
    ensures var start := |classText| - |LastSegment(classText)|;
            0 <= start && start + |r| <= |classText| &&
            r == classText[start..start + |r|]
  {
    LastSegmentSpec(classText);
    DropLastTwo(LastSegment(classText))
  }

  /** Split is undone by Join: no character is lost or added. */
  lemma {:induction false} JoinSplit(s: string)
    ensures Join(Split(s)) == s
  {
    if s != [] {
      JoinSplit(s[1..]);
      var rest := Split(s[1..]);
      if s[0] == '.' {
        assert Split(s)[1..] == rest;
      } else if |rest| == 1 {
        assert Join(Split(s)) == [s[0]] + rest[0];
      } else {
        var r := Split(s);
        assert r[1..] == rest[1..];
        assert Join(r) == [s[0]] + rest[0] + "." + Join(rest[1..]);
      }
    }
  }

  /** The text before the last segment is nothing or ends in a dot. */
  lemma {:induction false} JoinLast(segments: seq<string>)
    requires |segments| >= 1
    ensures var last := segments[|segments| - 1];
            |last| <= |Join(segments)| &&
            Join(segments)[|Join(segments)| - |last|..] == last &&
            (|segments| > 1 ==> |last| < |Join(segments)| &&
                                Join(segments)[|Join(segments)| - |last| - 1] == '.')
  {
    if |segments| > 1 {
      JoinLast(segments[1..]);
    }
  }

  /** The last segment is the text after the last dot of the class text (or
      all of it when there is none). */
  lemma LastSegmentSpec(s: string)
    ensures var seg := LastSegment(s);
            && '.' !in seg
            && |seg| <= |s|
            && s[|s| - |seg|..] == seg
            && (|seg| < |s| ==> s[|s| - |seg| - 1] == '.')
  {
    JoinSplit(s);
    JoinLast(Split(s));
  }

  /** The model name is the last segment less its last two characters: it
      holds no dot and is a prefix of that segment. */
  lemma GetModelNameSpec(classText: string)
    ensures var seg, name := LastSegment(classText), GetModelName(classText);
            && '.' !in name
            && |name| == (if |seg| >= 2 then |seg| - 2 else 0)
            && name == seg[..|name|]
  {
    var seg := LastSegment(classText);
    assert '.' !in seg;
    if |seg| >= 2 {
      var name := seg[..|seg| - 2];
      forall i | 0 <= i < |name| ensures name[i] != '.' {
        assert name[i] == seg[i];
      }
    }
  }

  /** Text without a dot is one segment. */
  lemma {:induction false} SplitNoDot(s: string)
    requires '.' !in s
    ensures Split(s) == [s]
  {
    if s != [] {
      assert s[0] != '.' && '.' !in s[1..];
      SplitNoDot(s[1..]);
      assert [s[0]] + s[1..] == s;
    }
  }

  /** A dot-free head and the first dot split off the first segment. */
  lemma {:induction false} SplitAtDot(a: string, b: string)
    requires '.' !in a
    ensures Split(a + "." + b) == [a] + Split(b)
  {
    if a == [] {
      assert a + "." + b == "." + b;
      assert ("." + b)[1..] == b;
    } else {
      var t := a + "." + b;
      assert t[0] == a[0] != '.';
      assert t[1..] == a[1..] + "." + b;
      assert '.' !in a[1..];
      SplitAtDot(a[1..], b);
      assert Split(t) == [[a[0]] + a[1..]] + Split(b);
      assert [a[0]] + a[1..] == a;
    }
  }

  /** sklearn's support vector classifier prints as
      "<class 'sklearn.svm.SVC'>". */
  lemma GetModelNameExample()
    ensures GetModelName("<class 'sklearn.svm.SVC'>") == "SVC"
  {
    var head, mid, tail := "<class 'sklearn", "svm", "SVC'>";
    var s := head + "." + (mid + "." + tail);
    assert s == "<class 'sklearn.svm.SVC'>";
    assert '.' !in tail;
    assert '.' !in mid;
    assert '.' !in head by {
      forall i | 0 <= i < |head| ensures head[i] != '.' {
      }
    }
    SplitNoDot(tail);
    SplitAtDot(mid, tail);
    SplitAtDot(head, mid + "." + tail);
    assert Split(s) == [head, mid, tail];
  }
}
