/**
 * The window's list of recently opened files, oldest first. Opening a file
 * moves it to the end of the list (every earlier copy is removed first);
 * saving the settings drops the oldest entries until at most fifteen remain.
 */
module Recent {
  import opened Seqs

  /** The most entries kept when the settings are saved. */
  const RecentLimit: nat := 15

  datatype Option<T> = None | Some(value: T)

  /** The list without any copy of `f`, others in their order. */
  function RemoveAll(r: seq<string>, f: string): (s: seq<string>)
    ensures f !in s
    ensures forall g :: g != f ==> multiset(s)[g] == multiset(r)[g]
    ensures f !in r ==> s == r
    ensures |s| <= |r|
  {
    if r == [] then []
    else
      assert r == [r[0]] + r[1..];
      (if r[0] == f then [] else [r[0]]) + RemoveAll(r[1..], f)
  }

  /** Removing from a concatenation removes from each part, keeping the parts in order. */
  lemma {:induction false} RemoveAllAppend(a: seq<string>, b: seq<string>, f: string)
    ensures RemoveAll(a + b, f) == RemoveAll(a, f) + RemoveAll(b, f)
  {
    if a == [] {
      assert a + b == b;
    } else {
      var h := if a[0] == f then [] else [a[0]];
      assert (a + b)[0] == a[0] && (a + b)[1..] == a[1..] + b;
      assert RemoveAll(a + b, f) == h + RemoveAll(a[1..] + b, f);
      RemoveAllAppend(a[1..], b, f);
      assert RemoveAll(a, f) == h + RemoveAll(a[1..], f);
      ConcatAssoc(h, RemoveAll(a[1..], f), RemoveAll(b, f));
    }
  }

  /** The list without any entry among `files`, others in their order. */
  function Without(r: seq<string>, files: seq<string>): (s: seq<string>)
    ensures forall g :: g in files ==> g !in s
    ensures forall g :: g !in files ==> multiset(s)[g] == multiset(r)[g]
  {
    if r == [] then []
    else
      assert r == [r[0]] + r[1..];
      (if r[0] in files then [] else [r[0]]) + Without(r[1..], files)
  }

  /** Removing one more file from the filtered list is filtering by one more file. */
  lemma {:induction false} RemoveAllWithout(r: seq<string>, files: seq<string>, f: string)
    ensures RemoveAll(Without(r, files), f) == Without(r, files + [f])
  {
    if r != [] {
      var head := if r[0] in files then [] else [r[0]];
      RemoveAllAppend(head, Without(r[1..], files), f);
      RemoveAllWithout(r[1..], files, f);
      assert r[0] in files + [f] <==> r[0] in files || r[0] == f;
      if r[0] !in files {
        assert head == [r[0]] + [] && RemoveAll(head, f) == (if r[0] == f then [] else [r[0]]) + RemoveAll([], f);
      }
    }
  }

  /** The list after opening `f`: its earlier copies are removed and it is appended. */
  function Touch(r: seq<string>, f: string): seq<string>
  {
    RemoveAll(r, f) + [f]
  }

  /**
   * After opening `f` it is the newest entry and occurs exactly once; every
   * other file occurs as often as before.
   */
  lemma TouchCounts(r: seq<string>, f: string)
    ensures |Touch(r, f)| > 0 && Touch(r, f)[|Touch(r, f)| - 1] == f
    ensures Touch(r, f)[..|Touch(r, f)| - 1] == RemoveAll(r, f)
    ensures multiset(Touch(r, f)) == multiset(r)[f := 1]
  {
    var s := RemoveAll(r, f);
    assert multiset(s)[f] == 0;
    assert multiset(s + [f]) == multiset(s) + multiset{f};
  }

  /** The list after opening `files` in order. */
  function TouchAll(r: seq<string>, files: seq<string>): seq<string>
  {
    if files == [] then r else Touch(TouchAll(r, files[..|files| - 1]), files[|files| - 1])
  }

  /** One more file in the batch: it becomes the newest entry and occurs once. */
  lemma TouchAllStep(r: seq<string>, files: seq<string>)
    requires files != []
    ensures var t := TouchAll(r, files); |t| > 0 && t[|t| - 1] == files[|files| - 1]
    ensures multiset(TouchAll(r, files)) == multiset(TouchAll(r, files[..|files| - 1]))[files[|files| - 1] := 1]
  {
    TouchCounts(TouchAll(r, files[..|files| - 1]), files[|files| - 1]);
  }

  /**
   * After opening a batch of files each of them occurs exactly once, the
   * last one opened is the newest entry, and every other file occurs as often
   * as before.
   */
  lemma {:induction false} TouchAllCounts(r: seq<string>, files: seq<string>)
    ensures forall g :: multiset(TouchAll(r, files))[g] == if g in files then 1 else multiset(r)[g]
    ensures files != [] ==> |TouchAll(r, files)| > 0 && TouchAll(r, files)[|TouchAll(r, files)| - 1] == files[|files| - 1]
  {
    if files != [] {
      var init, f := files[..|files| - 1], files[|files| - 1];
      TouchAllCounts(r, init);
      TouchAllStep(r, files);
      var m, m0 := multiset(TouchAll(r, files)), multiset(TouchAll(r, init));
      assert files == init + [f];
      forall g ensures m[g] == if g in files then 1 else multiset(r)[g] {
        assert g in files <==> g in init || g == f;
      }
    }
  }

  /**
   * Opening a batch keeps the old entries that were not reopened first, in
   * their old order, followed by the batch's own entries, which do not depend
   * on the old list.
   */
  lemma {:induction false} TouchAllOrder(r: seq<string>, files: seq<string>)
    ensures TouchAll(r, files) == Without(r, files) + TouchAll([], files)
  {
    if files == [] {
      WithoutNothing(r);
      assert TouchAll([], files) == [];
    } else {
      var init, f := files[..|files| - 1], files[|files| - 1];
      assert files == init + [f];
      var w, b := Without(r, init), TouchAll([], init);
      TouchAllOrder(r, init);
      assert TouchAll(r, files) == RemoveAll(w + b, f) + [f];
      RemoveAllAppend(w, b, f);
      RemoveAllWithout(r, init, f);
      assert TouchAll([], files) == RemoveAll(b, f) + [f];
      ConcatAssoc(RemoveAll(w, f), RemoveAll(b, f), [f]);
    }
  }

  lemma {:induction false} WithoutNothing(r: seq<string>)
    ensures Without(r, []) == r
  {
    if r != [] {
      WithoutNothing(r[1..]);
    }
  }

  /** A list without repeated entries keeps that property when a file is opened. */
  lemma TouchKeepsDistinct(r: seq<string>, f: string)
    requires forall g :: multiset(r)[g] <= 1
    ensures forall g :: multiset(Touch(r, f))[g] <= 1
  {
    TouchCounts(r, f);
  }

  /** The newest `limit` entries, or the whole list when it is no longer. */
  function Newest(r: seq<string>, limit: nat): seq<string>
  {
    if |r| > limit then r[|r| - limit..] else r
  }

  /** Opening a batch: each file in turn is moved to the end of the list. */
  method RememberAll(r: seq<string>, files: seq<string>) returns (r': seq<string>)
    ensures r' == TouchAll(r, files)
  {
    r' := r;
    var i := 0;
    while i < |files|
      invariant 0 <= i <= |files|
      invariant r' == TouchAll(r, files[..i])
    {
      assert files[..i + 1][..i] == files[..i];
      r' := RemoveAll(r', files[i]);
      r' := r' + [files[i]];
      i := i + 1;
    }
    assert files[..|files|] == files;
  }

  /**
   * Drops the oldest entry while more than `limit` remain: what is left is
   * the newest `limit` entries in their order, and nothing when the limit is
   * zero.
   */
  method DropOldest(r: seq<string>, limit: nat) returns (r': seq<string>)
    ensures r' == Newest(r, limit)
    ensures |r'| == if |r| < limit then |r| else limit
    ensures r' == r[|r| - |r'|..]
  {
    r' := r;
    ghost var dropped := 0;
    while |r'| > limit
      invariant 0 <= dropped <= |r| && r' == r[dropped..]
      invariant dropped == 0 || |r'| >= limit
      decreases |r'|
    {
      r' := r'[1..];
      dropped := dropped + 1;
    }
  }

  /** The recent-file list of the main window. */
  class RecentFiles {
    var recent: seq<string>

    constructor (stored: seq<string>)
      ensures recent == stored
    {
      recent := stored;
    }

    /** Opening files from the file dialog. */
    method OpenFiles(files: seq<string>)
      modifies this
      ensures recent == TouchAll(old(recent), files)
    {
      recent := RememberAll(recent, files);
    }

    /** Opening an entry of the recent menu; nothing happens without a sending action. */
    method OpenRecent(action: Option<string>)
      modifies this
      ensures recent == if action.Some? then Touch(old(recent), action.value) else old(recent)
    {
      if action.Some? {
        var filename := action.value;
        recent := RemoveAll(recent, filename);
        recent := recent + [filename];
      }
    }

    /** Saving the settings keeps only the newest RecentLimit entries. */
    method WriteSettings()
      modifies this
      ensures recent == Newest(old(recent), RecentLimit) && |recent| <= RecentLimit
    {
      recent := DropOldest(recent, RecentLimit);
    }
  }
}
