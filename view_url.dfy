/**
 * AlphaPagination::getUrl (src/AlphaPagination.php): the path the pagination
 * links point at. An override URL wins. Otherwise the view's path has each
 * '%' placeholder replaced by the next argument passed on the URL, or by the
 * argument's exception value, or by '*'; without a path or anything to
 * substitute, the current path is used with a trailing character value
 * removed.
 */
module ViewUrl {
  import opened PhpStrings

  /** One contextual filter of the view, in order: its id, whether its value is left out of URLs, and its exception value. */
  datatype Argument = Argument(id: string, skipUrl: bool, exception: string)

  /** What getUrl reads from the view. */
  datatype View = View(overrideUrl: string, path: string, args: seq<string>, arguments: seq<Argument>)

  /** The positions whose argument is left out of URLs, among the first `n` filters. */
  function SkippedBefore(arguments: seq<Argument>, n: nat): set<nat>
    requires n <= |arguments|
  {
    set k: nat | k < n && arguments[k].skipUrl
  }

  /** The arguments from position `from` on that are not skipped, in order: what unset leaves. */
  function Without(args: seq<string>, skipped: set<nat>, from: nat): (r: seq<string>)
    requires from <= |args|
    ensures |r| <= |args| - from
    ensures forall x :: x in r ==> x in args[from..]
    decreases |args| - from
  {
    if from == |args| then []
    else if from in skipped then Without(args, skipped, from + 1)
    else [args[from]] + Without(args, skipped, from + 1)
  }

  /** The positions from `from` up to `n` whose argument is not skipped, in increasing order. */
  function KeptPositions(n: nat, skipped: set<nat>, from: nat): (r: seq<nat>)
    requires from <= n
    ensures forall i :: 0 <= i < |r| ==> from <= r[i] < n && r[i] !in skipped
    ensures forall i, j :: 0 <= i < j < |r| ==> r[i] < r[j]
    ensures forall k: nat :: from <= k < n && k !in skipped ==> k in r
    decreases n - from
  {
    if from == n then []
    else if from in skipped then KeptPositions(n, skipped, from + 1)
    else
      var rest := KeptPositions(n, skipped, from + 1);
      assert forall i :: 0 < i < |rest| + 1 ==> ([from] + rest)[i] == rest[i - 1];
      [from] + rest
  }

  /** What unset leaves are exactly the arguments at the positions that are not skipped, in their order. */
  lemma {:induction false} WithoutKeepsUnskipped(args: seq<string>, skipped: set<nat>, from: nat)
    requires from <= |args|
    ensures var pos := KeptPositions(|args|, skipped, from);
      && |Without(args, skipped, from)| == |pos|
      && forall i :: 0 <= i < |pos| ==> Without(args, skipped, from)[i] == args[pos[i]]
    decreases |args| - from
  {
    if from < |args| {
      WithoutKeepsUnskipped(args, skipped, from + 1);
      var rest := Without(args, skipped, from + 1);
      var pos := KeptPositions(|args|, skipped, from + 1);
      if from !in skipped {
        assert Without(args, skipped, from) == [args[from]] + rest;
        assert KeptPositions(|args|, skipped, from) == [from] + pos;
      } else {
        assert Without(args, skipped, from) == rest;
        assert KeptPositions(|args|, skipped, from) == pos;
      }
    }
  }

  /** The arguments passed on the URL. */
  function UrlArgs(view: View): seq<string> {
    Without(view.args, SkippedBefore(view.arguments, |view.arguments|), 0)
  }

  /** Whether `$id` is truthy while it stands at position `idx` of the argument ids (false once past the end). */
  predicate IdSet(arguments: seq<Argument>, idx: nat) {
    idx < |arguments| && Truthy(arguments[idx].id)
  }

  /** The piece written for a placeholder when no argument is left. */
  function Fallback(arguments: seq<Argument>, idx: nat): string {
    if IdSet(arguments, idx) && Truthy(arguments[idx].exception) then arguments[idx].exception else "*"
  }

  /**
   * The loop over the path's pieces: other pieces are kept; a placeholder
   * takes the next argument, or the fallback; `$id` moves to the next
   * filter after each placeholder while it is set.
   */
  function Substitute(pieces: seq<string>, args: seq<string>, arguments: seq<Argument>, idx: nat): (r: seq<string>)
    ensures |r| == |pieces|
    decreases |pieces|
  {
    if pieces == [] then []
    else
      var next := if IdSet(arguments, idx) then idx + 1 else idx;
      if pieces[0] != "%" then [pieces[0]] + Substitute(pieces[1..], args, arguments, idx)
      else if args != [] then [args[0]] + Substitute(pieces[1..], args[1..], arguments, next)
      else [Fallback(arguments, idx)] + Substitute(pieces[1..], [], arguments, next)
  }

  /** Substitution touches only the placeholders: every other piece stays as it is, where it is. */
  lemma {:induction false} SubstituteKeeps(pieces: seq<string>, args: seq<string>, arguments: seq<Argument>, idx: nat)
    ensures forall k :: 0 <= k < |pieces| && pieces[k] != "%" ==> Substitute(pieces, args, arguments, idx)[k] == pieces[k]
    decreases |pieces|
  {
    if pieces != [] {
      var next := if IdSet(arguments, idx) then idx + 1 else idx;
      if pieces[0] != "%" {
        SubstituteKeeps(pieces[1..], args, arguments, idx);
      } else if args != [] {
        SubstituteKeeps(pieces[1..], args[1..], arguments, next);
      } else {
        SubstituteKeeps(pieces[1..], [], arguments, next);
      }
    }
  }

  /** The number of placeholders among `pieces`. */
  function Placeholders(pieces: seq<string>): nat
    decreases |pieces|
  {
    if pieces == [] then 0
    else (if pieces[0] == "%" then 1 else 0) + Placeholders(pieces[1..])
  }

  /** Where `$id` stands after `n` placeholders from position `idx`: next() is called only while it is set. */
  function IdAfter(arguments: seq<Argument>, idx: nat, n: nat): (r: nat)
    ensures idx <= r <= idx + n
    ensures r > idx ==> IdSet(arguments, idx)
    decreases n
  {
    if n == 0 then idx else IdAfter(arguments, if IdSet(arguments, idx) then idx + 1 else idx, n - 1)
  }

  /** The current path, without its last piece when that piece is a character value. */
  function TrimCurrent(currentPath: string, characterValues: seq<string>): string {
    var pieces := Explode('/', currentPath);
    if pieces[|pieces| - 1] in characterValues then Implode('/', pieces[..|pieces| - 1]) else Implode('/', pieces)
  }

  /** getUrl, on its first call. */
  function Url(view: View, currentPath: string, characterValues: seq<string>): string {
    if Truthy(view.overrideUrl) then view.overrideUrl
    else
      var args := UrlArgs(view);
      if !Truthy(view.path) || (args == [] && '%' !in view.path) then TrimCurrent(currentPath, characterValues)
      else Implode('/', Substitute(Explode('/', view.path), args, view.arguments, 0))
  }

  /** The loop of getUrl that collects the positions of the filters whose value is left out of URLs. */
  method SkippedPositions(arguments: seq<Argument>) returns (skipped: set<nat>)
    ensures skipped == SkippedBefore(arguments, |arguments|)
  {
    skipped := {};
    for position := 0 to |arguments|
      invariant skipped == SkippedBefore(arguments, position)
    {
      if arguments[position].skipUrl {
        skipped := skipped + {position};
      }
    }
  }

  /** The piece written for the first of `pieces`. */
  function FirstPiece(pieces: seq<string>, args: seq<string>, arguments: seq<Argument>, idx: nat): string
    requires pieces != []
  {
    if pieces[0] != "%" then pieces[0] else if args != [] then args[0] else Fallback(arguments, idx)
  }

  /** Substitution, one piece at a time. */
  lemma SubstituteStep(pieces: seq<string>, args: seq<string>, arguments: seq<Argument>, idx: nat)
    requires pieces != []
    ensures pieces[0] != "%" ==>
      Substitute(pieces, args, arguments, idx) == [FirstPiece(pieces, args, arguments, idx)] + Substitute(pieces[1..], args, arguments, idx)
    ensures pieces[0] == "%" ==>
      Substitute(pieces, args, arguments, idx) == [FirstPiece(pieces, args, arguments, idx)] +
        Substitute(pieces[1..], if args != [] then args[1..] else [], arguments, if IdSet(arguments, idx) then idx + 1 else idx)
  {
  }

  /** One iteration of the substitution loop: the piece written for the first of `rest` joins the output, and the remaining pieces continue from there. */
  lemma SubstituteAdvance(pieces: seq<string>, rest: seq<string>, args: seq<string>, arguments: seq<Argument>, idx: nat, target: seq<string>)
    requires rest != [] && pieces + Substitute(rest, args, arguments, idx) == target
    ensures rest[0] != "%" ==>
      (pieces + [FirstPiece(rest, args, arguments, idx)]) + Substitute(rest[1..], args, arguments, idx) == target
    ensures rest[0] == "%" ==>
      (pieces + [FirstPiece(rest, args, arguments, idx)]) +
        Substitute(rest[1..], if args != [] then args[1..] else [], arguments, if IdSet(arguments, idx) then idx + 1 else idx) == target
  {
    SubstituteStep(rest, args, arguments, idx);
    var x := FirstPiece(rest, args, arguments, idx);
    var tail := if rest[0] != "%" then Substitute(rest[1..], args, arguments, idx)
      else Substitute(rest[1..], if args != [] then args[1..] else [], arguments, if IdSet(arguments, idx) then idx + 1 else idx);
    assert Substitute(rest, args, arguments, idx) == [x] + tail;
    assert pieces + ([x] + tail) == (pieces + [x]) + tail;
  }

  /** The loop of getUrl over the pieces of the view's path. */
  method SubstitutePieces(all: seq<string>, urlArgs: seq<string>, arguments: seq<Argument>) returns (pieces: seq<string>)
    ensures pieces == Substitute(all, urlArgs, arguments, 0)
  {
    pieces := [];
    var args := urlArgs;
    var idx := 0;
    var k := 0;
    while k < |all|
      invariant k <= |all|
      invariant pieces + Substitute(all[k..], args, arguments, idx) == Substitute(all, urlArgs, arguments, 0)
    {
      ghost var rest := all[k..];
      assert rest[1..] == all[k + 1..];
      SubstituteAdvance(pieces, rest, args, arguments, idx, Substitute(all, urlArgs, arguments, 0));
      var piece := all[k];
      if piece == "%" {
        if args == [] {
          if IdSet(arguments, idx) && Truthy(arguments[idx].exception) {
            piece := arguments[idx].exception;
          } else {
            piece := "*";
          }
        } else {
          piece := args[0];
          args := args[1..];
        }
        if IdSet(arguments, idx) {
          idx := idx + 1;
        }
      }
      pieces := pieces + [piece];
      k := k + 1;
    }
    assert all[|all|..] == [];
  }

  /** getUrl as the code runs it; `characterValues` are the keys of getCharacters(). */
  method GetUrl(view: View, currentPath: string, characterValues: seq<string>) returns (url: string)
    ensures url == Url(view, currentPath, characterValues)
  {
    if Truthy(view.overrideUrl) {
      return view.overrideUrl;
    }
    var path := view.path;
    var skipped := SkippedPositions(view.arguments);
    var args := Without(view.args, skipped, 0);
    StrPosChar(path, '%');
    if !Truthy(path) || (args == [] && StrPos(path, "%").None?) {
      var pieces := Explode('/', currentPath);
      if pieces[|pieces| - 1] in characterValues {
        pieces := pieces[..|pieces| - 1];
      }
      return Implode('/', pieces);
    }
    var pieces := SubstitutePieces(Explode('/', path), args, view.arguments);
    url := Implode('/', pieces);
  }

  /** The n-th placeholder of the path takes the n-th URL argument when there is one, and the fallback otherwise. */
  lemma {:induction false} PlaceholderValue(pieces: seq<string>, args: seq<string>, arguments: seq<Argument>, idx: nat, k: nat)
    requires k < |pieces| && pieces[k] == "%"
    ensures Placeholders(pieces[..k]) < |args| ==> Substitute(pieces, args, arguments, idx)[k] == args[Placeholders(pieces[..k])]
    ensures Placeholders(pieces[..k]) >= |args| ==>
      Substitute(pieces, args, arguments, idx)[k] == Fallback(arguments, IdAfter(arguments, idx, Placeholders(pieces[..k])))
    decreases k
  {
    var next := if IdSet(arguments, idx) then idx + 1 else idx;
    if k > 0 {
      assert pieces[..k][1..] == pieces[1..][..k - 1];
      if pieces[0] != "%" {
        PlaceholderValue(pieces[1..], args, arguments, idx, k - 1);
      } else if args != [] {
        PlaceholderValue(pieces[1..], args[1..], arguments, next, k - 1);
      } else {
        PlaceholderValue(pieces[1..], [], arguments, next, k - 1);
      }
    }
  }

  /**
   * On the view's own path, the n-th placeholder takes the argument at the
   * n-th position that is not skipped, while there is one; after that, the
   * exception value of the filter `$id` has reached, or '*'.
   */
  lemma PlaceholderFromView(view: View, k: nat)
    requires k < |Explode('/', view.path)| && Explode('/', view.path)[k] == "%"
    ensures var pieces := Explode('/', view.path);
      var n := Placeholders(pieces[..k]);
      var pos := KeptPositions(|view.args|, SkippedBefore(view.arguments, |view.arguments|), 0);
      Substitute(pieces, UrlArgs(view), view.arguments, 0)[k] ==
        if n < |pos| then view.args[pos[n]] else Fallback(view.arguments, IdAfter(view.arguments, 0, n))
  {
    WithoutKeepsUnskipped(view.args, SkippedBefore(view.arguments, |view.arguments|), 0);
    PlaceholderValue(Explode('/', view.path), UrlArgs(view), view.arguments, 0, k);
  }

  /** When no argument and no exception value holds a slash, no substituted piece does. */
  lemma {:induction false} SubstituteSlashFree(pieces: seq<string>, args: seq<string>, arguments: seq<Argument>, idx: nat)
    requires forall k :: 0 <= k < |pieces| ==> '/' !in pieces[k]
    requires forall k :: 0 <= k < |args| ==> '/' !in args[k]
    requires forall j :: 0 <= j < |arguments| ==> '/' !in arguments[j].exception
    ensures forall k :: 0 <= k < |pieces| ==> '/' !in Substitute(pieces, args, arguments, idx)[k]
    decreases |pieces|
  {
    if pieces != [] {
      var next := if IdSet(arguments, idx) then idx + 1 else idx;
      if pieces[0] != "%" {
        SubstituteSlashFree(pieces[1..], args, arguments, idx);
      } else if args != [] {
        SubstituteSlashFree(pieces[1..], args[1..], arguments, next);
      } else {
        SubstituteSlashFree(pieces[1..], [], arguments, next);
      }
    }
  }

  /**
   * With nothing to substitute that holds a slash, the URL built from the
   * view's path has as many segments as the path, and the path's own
   * segments stay where they were.
   */
  lemma PathShapeKept(view: View, currentPath: string, characterValues: seq<string>)
    requires !Truthy(view.overrideUrl) && Truthy(view.path) && (UrlArgs(view) != [] || '%' in view.path)
    requires forall x :: x in view.args ==> '/' !in x
    requires forall j :: 0 <= j < |view.arguments| ==> '/' !in view.arguments[j].exception
    ensures var segments := Explode('/', Url(view, currentPath, characterValues));
      var original := Explode('/', view.path);
      |segments| == |original| &&
      forall k :: 0 <= k < |original| && original[k] != "%" ==> segments[k] == original[k]
  {
    var pieces := Explode('/', view.path);
    var args := UrlArgs(view);
    forall k | 0 <= k < |args| ensures '/' !in args[k] {
      assert args[k] in args;
    }
    SubstituteSlashFree(pieces, args, view.arguments, 0);
    SubstituteKeeps(pieces, args, view.arguments, 0);
    ExplodeImplode('/', Substitute(pieces, args, view.arguments, 0));
  }

  /**
   * On the current-path branch the URL is the current path itself, or,
   * when its last segment is a character value, the path before that
   * segment.
   */
  lemma TrimCurrentShape(currentPath: string, characterValues: seq<string>)
    ensures var pieces := Explode('/', currentPath);
      var last := pieces[|pieces| - 1];
      && (last !in characterValues ==> TrimCurrent(currentPath, characterValues) == currentPath)
      && (last in characterValues && |pieces| >= 2 ==> TrimCurrent(currentPath, characterValues) + "/" + last == currentPath)
      && (last in characterValues && |pieces| == 1 ==> TrimCurrent(currentPath, characterValues) == "")
  {
    var pieces := Explode('/', currentPath);
    var last := pieces[|pieces| - 1];
    if last !in characterValues {
      TrimKeepsPath(currentPath, characterValues);
    } else if |pieces| >= 2 {
      TrimDropsLast(currentPath, characterValues);
    }
  }

  /** When the last segment is not a character value, the path is kept whole. */
  lemma TrimKeepsPath(currentPath: string, characterValues: seq<string>)
    requires var pieces := Explode('/', currentPath); pieces[|pieces| - 1] !in characterValues
    ensures TrimCurrent(currentPath, characterValues) == currentPath
  {
    ImplodeExplode('/', currentPath);
  }

  /** When the last segment is dropped, it followed the kept path and a slash. */
  lemma TrimDropsLast(currentPath: string, characterValues: seq<string>)
    requires var pieces := Explode('/', currentPath); pieces[|pieces| - 1] in characterValues && |pieces| >= 2
    ensures var pieces := Explode('/', currentPath);
      TrimCurrent(currentPath, characterValues) + "/" + pieces[|pieces| - 1] == currentPath
  {
    var pieces := Explode('/', currentPath);
    var last := pieces[|pieces| - 1];
    var init := pieces[..|pieces| - 1];
    assert init + [last] == pieces;
    ImplodeSnoc('/', init, last);
    ImplodeExplode('/', currentPath);
  }
}
