/**
 The window manager: an array of windows, an array of their indices from back to front, and the
 pointer's drag. Together the arrays stand for a stack of windows.
 */
module WindowManager {
  const MAX_WINDOWS := 8
  const TITLE_H := 20
  const TASKBAR_W := 48
  const MENUBAR_H := 20
  const CLOSE_BTN_W := 16
  const CLOSE_BTN_H := 16
  const CLOSE_BTN_MARGIN := 4

  datatype Window = Window(x: int, y: int, w: int, h: int, title: string, app: nat) {
    predicate InTitlebar(px: int, py: int) {
      x <= px < x + w && y <= py < y + TITLE_H
    }

    predicate InCloseButton(px: int, py: int) {
      var left, top := x + w - CLOSE_BTN_MARGIN - CLOSE_BTN_W, y + (TITLE_H - CLOSE_BTN_H) / 2;
      left <= px < left + CLOSE_BTN_W && top <= py < top + CLOSE_BTN_H
    }

    predicate InBody(px: int, py: int) {
      x <= px < x + w && y + TITLE_H <= py < y + h
    }

    predicate Hit(part: Part, px: int, py: int) {
      match part
      case Button => InCloseButton(px, py)
      case Titlebar => InTitlebar(px, py)
      case Body => InBody(px, py)
    }
  }

  datatype Part = Button | Titlebar | Body

  // -------------------------------------------------------------- stacks of windows

  /** Every index below |z| occurs exactly once. */
  ghost predicate IsPermutation(z: seq<nat>) {
    && (forall i :: 0 <= i < |z| ==> z[i] < |z|)
    && (forall i, j :: 0 <= i < j < |z| ==> z[i] != z[j])
    && (forall k :: 0 <= k < |z| ==> k in z)
  }

  ghost predicate TitlesDistinct(ws: seq<Window>) {
    forall i, j :: 0 <= i < j < |ws| ==> ws[i].title != ws[j].title
  }

  /** The windows from back to front. */
  ghost function Stack(ws: seq<Window>, z: seq<nat>): (s: seq<Window>)
    requires |ws| == |z| && IsPermutation(z)
    ensures |s| == |z|
  {
    seq(|z|, i requires 0 <= i < |z| => ws[z[i]])
  }

  ghost function Without<T>(s: seq<T>, p: nat): (r: seq<T>)
    requires p < |s|
    ensures |r| == |s| - 1
    ensures forall i :: 0 <= i < |r| ==> r[i] == if i < p then s[i] else s[i + 1]
  {
    s[..p] + s[p + 1..]
  }

  ghost function Raised<T>(s: seq<T>, p: nat): seq<T>
    requires p < |s|
  {
    Without(s, p) + [s[p]]
  }

  /** Index k went to the end, and the others kept their order. */
  ghost predicate Brought(z: seq<nat>, z': seq<nat>, k: int) {
    exists p :: 0 <= p < |z| && z[p] == k && z' == z[..p] + z[p + 1..] + [z[p]]
  }

  lemma RaisedBrings(z: seq<nat>, p: nat)
    requires p < |z|
    ensures Brought(z, Raised(z, p), z[p])
  {
  }

  /** Indices after window idx is gone from the array. */
  ghost function Renumbered(z: seq<nat>, idx: nat): (r: seq<nat>)
    ensures |r| == |z|
  {
    seq(|z|, i requires 0 <= i < |z| => if z[i] > idx then z[i] - 1 else z[i])
  }

  lemma WithoutKeeps<T>(s: seq<T>, p: nat, e: T)
    requires p < |s| && e in s && e != s[p]
    ensures e in Without(s, p)
  {
    var i :| 0 <= i < |s| && s[i] == e;
    assert Without(s, p)[if i < p then i else i - 1] == e;
  }

  /** A place in the order: the index there is a live one, and occurs nowhere else. */
  lemma Occurs(ws: seq<Window>, z: seq<nat>, p: nat)
    requires |ws| == |z| && IsPermutation(z) && p < |z|
    ensures z[p] < |ws| && Stack(ws, z)[p] == ws[z[p]]
    ensures forall i :: 0 <= i < |z| && z[i] == z[p] ==> i == p
  {
  }

  lemma RaisedLast<T>(s: seq<T>)
    requires s != []
    ensures Raised(s, |s| - 1) == s
  {
  }

  lemma RaisedPermutation(z: seq<nat>, p: nat)
    requires IsPermutation(z) && p < |z|
    ensures IsPermutation(Raised(z, p))
  {
    var r := Raised(z, p);
    forall i | 0 <= i < |r|
      ensures r[i] == z[if i < p then i else if i < |r| - 1 then i + 1 else p]
    {
    }
    forall k | 0 <= k < |r|
      ensures k in r
    {
      if k == z[p] {
        assert r[|r| - 1] == k;
      } else {
        WithoutKeeps(z, p, k);
      }
    }
  }

  /** Raising permutes the order and moves one window to the top of the stack. */
  lemma RaiseStack(ws: seq<Window>, z: seq<nat>, p: nat)
    requires |ws| == |z| && IsPermutation(z) && p < |z|
    ensures IsPermutation(Raised(z, p))
    ensures Stack(ws, Raised(z, p)) == Raised(Stack(ws, z), p)
  {
    RaisedPermutation(z, p);
    hide IsPermutation;
  }

  lemma WithoutPermutation(z: seq<nat>, p: nat)
    requires IsPermutation(z) && p < |z|
    ensures IsPermutation(Renumbered(Without(z, p), z[p]))
    ensures forall i :: 0 <= i < |z| - 1 ==> Without(z, p)[i] != z[p] && Without(z, p)[i] < |z|
  {
    var idx, kept := z[p], Without(z, p);
    var z' := Renumbered(kept, idx);
    forall i | 0 <= i < |kept|
      ensures kept[i] != idx && kept[i] < |z|
    {
      assert kept[i] == z[if i < p then i else i + 1];
    }
    forall i, j | 0 <= i < j < |kept|
      ensures kept[i] != kept[j]
    {
      assert kept[i] == z[if i < p then i else i + 1] && kept[j] == z[if j < p then j else j + 1];
    }
    forall k | 0 <= k < |z'|
      ensures k in z'
    {
      var k0 := if k < idx then k else k + 1;
      WithoutKeeps(z, p, k0);
      var i :| 0 <= i < |kept| && kept[i] == k0;
      assert z'[i] == k;
    }
  }

  /** Closing removes one window from the stack and keeps the order of the rest. */
  lemma CloseStack(ws: seq<Window>, z: seq<nat>, p: nat)
    requires |ws| == |z| && IsPermutation(z) && p < |z|
    ensures var z' := Renumbered(Without(z, p), z[p]);
      && IsPermutation(z')
      && Stack(Without(ws, z[p]), z') == Without(Stack(ws, z), p)
  {
    WithoutPermutation(z, p);
    var idx, kept := z[p], Without(z, p);
    var z' := Renumbered(kept, idx);
    forall i | 0 <= i < |z'|
      ensures Without(ws, idx)[z'[i]] == ws[kept[i]]
    {
    }
  }

  /** What the arrays stand for once one index was moved to the end of the order. */
  lemma BroughtTo(ws: seq<Window>, z: seq<nat>, z': seq<nat>, p: nat)
    requires |ws| == |z| && IsPermutation(z) && p < |z| && z' == Without(z, p) + [z[p]]
    ensures IsPermutation(z') && z' == Raised(z, p) && Brought(z, z', z[p]) && z'[|z'| - 1] == z[p]
    ensures Stack(ws, z') == Raised(Stack(ws, z), p)
  {
    RaiseStack(ws, z, p);
    RaisedBrings(z, p);
  }

  lemma BroughtSame(ws: seq<Window>, z: seq<nat>)
    requires |ws| == |z| && IsPermutation(z) && z != []
    ensures Raised(z, |z| - 1) == z && Raised(Stack(ws, z), |z| - 1) == Stack(ws, z) && Brought(z, z, z[|z| - 1])
  {
    RaisedLast(z);
    RaisedLast(Stack(ws, z));
    RaisedBrings(z, |z| - 1);
  }

  /** Opening puts a window on top. */
  lemma OpenStack(ws: seq<Window>, z: seq<nat>, win: Window)
    requires |ws| == |z| && IsPermutation(z)
    ensures IsPermutation(z + [|z|]) && Stack(ws + [win], z + [|z|]) == Stack(ws, z) + [win]
  {
    var z' := z + [|z|];
    forall k | 0 <= k < |z'|
      ensures k in z'
    {
      if k < |z| {
        assert k in z;
      } else {
        assert z'[k] == k;
      }
    }
  }

  lemma OpenTitles(ws: seq<Window>, z: seq<nat>, win: Window)
    requires |ws| == |z| && IsPermutation(z)
    ensures TitlesDistinct(ws + [win]) <==> TitlesDistinct(ws) && Titled(Stack(ws, z), win.title) == -1
  {
    var more := ws + [win];
    if TitlesDistinct(more) {
      assert forall i :: 0 <= i < |ws| ==> more[i] == ws[i];
      assert more[|ws|] == win;
      TitledNowhere(ws, z, win.title);
    } else {
      var i, j :| 0 <= i < j < |more| && more[i].title == more[j].title;
      if j == |ws| {
        var p := Position(z, i);
        assert Stack(ws, z)[p] == ws[i];
      }
    }
  }

  lemma TitlesMoved(ws: seq<Window>, ws': seq<Window>)
    requires |ws'| == |ws| && forall i :: 0 <= i < |ws| ==> ws'[i].title == ws[i].title
    ensures TitlesDistinct(ws) ==> TitlesDistinct(ws')
  {
  }

  lemma TitlesWithout(ws: seq<Window>, idx: nat)
    requires TitlesDistinct(ws) && idx < |ws|
    ensures TitlesDistinct(Without(ws, idx))
  {
  }

  /** No title is lost or gained by looking at the windows in stacking order. */
  lemma StackTitles(ws: seq<Window>, z: seq<nat>)
    requires |ws| == |z| && IsPermutation(z)
    ensures TitlesDistinct(ws) <==> TitlesDistinct(Stack(ws, z))
  {
    var s := Stack(ws, z);
    if TitlesDistinct(s) {
      forall a, b | 0 <= a < b < |ws|
        ensures ws[a].title != ws[b].title
      {
        assert a in z && b in z;
        var i :| 0 <= i < |z| && z[i] == a;
        var j :| 0 <= j < |z| && z[j] == b;
        assert s[i].title == ws[a].title && s[j].title == ws[b].title;
      }
    }
  }

  /** The position of a window with this title, or -1 when there is none. */
  ghost function Titled(s: seq<Window>, title: string): (p: int)
    ensures -1 <= p < |s|
    ensures p >= 0 ==> s[p].title == title
    ensures p == -1 ==> forall q :: 0 <= q < |s| ==> s[q].title != title
  {
    if s == [] then -1
    else if s[|s| - 1].title == title then |s| - 1 else Titled(s[..|s| - 1], title)
  }

  /** In a stack of distinct titles each window is where its title is. */
  lemma TitledAt(ws: seq<Window>, z: seq<nat>, p: nat)
    requires |ws| == |z| && IsPermutation(z) && TitlesDistinct(ws) && p < |z|
    ensures Titled(Stack(ws, z), ws[z[p]].title) == p
  {
    StackTitles(ws, z);
    assert Stack(ws, z)[p] == ws[z[p]];
  }

  lemma TitledNowhere(ws: seq<Window>, z: seq<nat>, title: string)
    requires |ws| == |z| && IsPermutation(z) && forall i :: 0 <= i < |ws| ==> ws[i].title != title
    ensures Titled(Stack(ws, z), title) == -1
  {
  }

  /** The position of the frontmost window hit there, or -1 when none is. */
  ghost function FrontHit(s: seq<Window>, part: Part, mx: int, my: int): (p: int)
    ensures -1 <= p < |s|
    ensures p >= 0 ==> s[p].Hit(part, mx, my)
    ensures forall q :: p < q < |s| ==> !s[q].Hit(part, mx, my)
  {
    if s == [] then -1
    else if s[|s| - 1].Hit(part, mx, my) then |s| - 1 else FrontHit(s[..|s| - 1], part, mx, my)
  }

  /** The stack with the window at p raised, if p is a position. */
  ghost function Touched(s: seq<Window>, p: int): (r: seq<Window>)
    requires p < |s|
    ensures |r| == |s|
  {
    if p < 0 then s else Raised(s, p)
  }

  // --------------------------------------------------------------------- the desktop

  /** What the taskbar makes of a click: nothing, a window to open or raise, or the way back to the shell. */
  datatype Action = NoAction | Launch(title: string, w: int, h: int, app: nat) | Select(index: nat) | Leave

  /** One round's input: the pointer, what the bars make of a click, and what a clicked app opens, if anything. */
  datatype Input = Input(mx: int, my: int, pressed: bool, action: Action, onTaskbar: bool, onMenubar: bool,
                         hook: Action)
  {
    predicate OnBars() { onTaskbar || onMenubar }
  }

  /** Where the n-th window opens: stepped to the right and down, kept clear of the taskbar. */
  function Placed(fbW: int, n: nat, title: string, w: int, h: int, app: nat): Window {
    var x := TASKBAR_W + 24 + n * 18;
    var x1 := if x + w > fbW then fbW - w else x;
    Window(if x1 < TASKBAR_W then TASKBAR_W else x1, 40 + n * 18, w, h, title, app)
  }

  /** The stack after an action; `ws` gives the windows their numbers. */
  ghost function Acted(fbW: int, s: seq<Window>, ws: seq<Window>, action: Action): seq<Window> {
    match action
    case NoAction => s
    case Leave => s
    case Select(index) => if index < |ws| then Touched(s, Titled(s, ws[index].title)) else s
    case Launch(title, w, h, app) =>
      if Titled(s, title) >= 0 then Touched(s, Titled(s, title))
      else if |s| < MAX_WINDOWS then s + [Placed(fbW, |s|, title, w, h, app)]
      else s
  }

  /** The stack after a press of the button. */
  ghost function Clicked(fbW: int, s: seq<Window>, ws: seq<Window>, input: Input): seq<Window> {
    var acted := Acted(fbW, s, ws, input.action);
    var c := FrontHit(acted, Button, input.mx, input.my);
    var b := FrontHit(acted, Body, input.mx, input.my);
    if input.OnBars() then acted
    else if c >= 0 then Without(acted, c)
    else if b >= 0 then Acted(fbW, Raised(acted, b), [], input.hook)
    else acted
  }

  /** A press that reaches neither a window's body nor its title bar. */
  ghost predicate Consumed(fbW: int, s: seq<Window>, ws: seq<Window>, input: Input) {
    input.OnBars() || FrontHit(Acted(fbW, s, ws, input.action), Button, input.mx, input.my) >= 0
  }

  /** The window that a round with nothing in drag starts to drag, by its position after the click. */
  ghost function Grabbed(fbW: int, s: seq<Window>, ws: seq<Window>, input: Input, clicked: bool): (t: int)
    ensures t < |if clicked then Clicked(fbW, s, ws, input) else s|
  {
    if !input.pressed || (clicked && Consumed(fbW, s, ws, input)) then -1
    else FrontHit(if clicked then Clicked(fbW, s, ws, input) else s, Titlebar, input.mx, input.my)
  }

  /** The stack with its front window moved to the pointer, kept clear of the bars. */
  ghost function Dragged(s: seq<Window>, x: int, y: int): (r: seq<Window>)
    requires s != []
    ensures |r| == |s|
  {
    s[|s| - 1 := s[|s| - 1].(x := AtLeast(x, TASKBAR_W), y := AtLeast(y, MENUBAR_H))]
  }

  ghost predicate Frontmost(s: seq<Window>, part: Part, mx: int, my: int, p: nat) {
    p < |s| && s[p].Hit(part, mx, my) && forall q :: p < q < |s| ==> !s[q].Hit(part, mx, my)
  }

  /** Where a window can be hit: the button is a square at the right of the title bar, the body is below it. */
  lemma HitBoxes(w: Window, px: int, py: int)
    ensures w.Hit(Titlebar, px, py) <==> 0 <= px - w.x < w.w && 0 <= py - w.y < 20
    ensures w.Hit(Button, px, py) <==> 4 < w.x + w.w - px <= 20 && 2 <= py - w.y < 18
    ensures w.Hit(Body, px, py) <==> 0 <= px - w.x < w.w && 20 <= py - w.y < w.h
    ensures w.w >= 20 && w.Hit(Button, px, py) ==> w.Hit(Titlebar, px, py)
    ensures !(w.Hit(Body, px, py) && w.Hit(Titlebar, px, py))
  {
  }

  /**
   A press off the bars: the frontmost window whose button was hit goes, and nothing is dragged; with no
   button hit the frontmost body comes to the front; otherwise the stack stays.
   */
  lemma PressOffBars(fbW: int, s: seq<Window>, ws: seq<Window>, input: Input)
    requires input.action.NoAction? && input.hook.NoAction? && !input.OnBars()
    ensures var s' := Clicked(fbW, s, ws, input);
      && (forall p: nat :: Frontmost(s, Button, input.mx, input.my, p) ==>
            s' == s[..p] + s[p + 1..] && Grabbed(fbW, s, ws, input, true) == -1)
      && ((forall p :: 0 <= p < |s| ==> !s[p].Hit(Button, input.mx, input.my)) ==>
            && (forall p: nat :: Frontmost(s, Body, input.mx, input.my, p) ==> s' == s[..p] + s[p + 1..] + [s[p]])
            && ((forall p :: 0 <= p < |s| ==> !s[p].Hit(Body, input.mx, input.my)) ==> s' == s))
  {
    hide Window.Hit;
    forall part, p: nat | Frontmost(s, part, input.mx, input.my, p)
      ensures FrontHit(s, part, input.mx, input.my) == p
    {
      FrontIs(s, part, input.mx, input.my, p);
    }
  }

  /**
   If the app so clicked opens a window, that is in front afterwards: raised if there was one with its title,
   else new, if there is room for an eighth.
   */
  lemma HookOpens(fbW: int, s: seq<Window>, ws: seq<Window>, input: Input, p: nat)
    requires input.action.NoAction? && input.hook.Launch? && !input.OnBars()
    requires Frontmost(s, Body, input.mx, input.my, p)
    requires forall q :: 0 <= q < |s| ==> !s[q].Hit(Button, input.mx, input.my)
    ensures var s', r := Clicked(fbW, s, ws, input), s[..p] + s[p + 1..] + [s[p]];
      if HasTitle(s, input.hook.title) then |s'| == |s| && s'[|s'| - 1].title == input.hook.title
      else if |s| < 8 then |s'| == |s| + 1 && s'[..|s|] == r && s'[|s|].title == input.hook.title
      else s' == r
  {
    hide Window.Hit;
    var r := Raised(s, p);
    assert FrontHit(s, Body, input.mx, input.my) == p && FrontHit(s, Button, input.mx, input.my) == -1;
    RaisedTitles(s, p, input.hook.title);
    hide Frontmost, Raised;
    LaunchOpens(fbW, r, input.hook);
  }

  ghost predicate HasTitle(s: seq<Window>, title: string) {
    exists q :: 0 <= q < |s| && s[q].title == title
  }

  lemma RaisedTitles(s: seq<Window>, p: nat, title: string)
    requires p < |s|
    ensures Raised(s, p) == s[..p] + s[p + 1..] + [s[p]] && (HasTitle(Raised(s, p), title) <==> HasTitle(s, title))
  {
    var r := Raised(s, p);
    if q :| 0 <= q < |s| && s[q].title == title {
      assert r[if q < p then q else if q == p then |s| - 1 else q - 1] == s[q];
    }
    if q :| 0 <= q < |r| && r[q].title == title {
      assert r[q] == s[if q < p then q else if q < |s| - 1 then q + 1 else p];
    }
  }

  lemma LaunchOpens(fbW: int, s: seq<Window>, action: Action)
    requires action.Launch?
    ensures var s' := Acted(fbW, s, [], action);
      if HasTitle(s, action.title) then |s'| == |s| && s'[|s'| - 1].title == action.title
      else if |s| < 8 then |s'| == |s| + 1 && s'[..|s|] == s && s'[|s|].title == action.title
      else s' == s
  {
    TitledIs(s, action.title);
    hide HasTitle;
    if HasTitle(s, action.title) {
      LaunchRaises(fbW, s, action);
    } else {
      LaunchAdds(fbW, s, action);
    }
  }

  lemma LaunchRaises(fbW: int, s: seq<Window>, action: Action)
    requires action.Launch? && Titled(s, action.title) >= 0
    ensures var s' := Acted(fbW, s, [], action); |s'| == |s| && s'[|s'| - 1].title == action.title
  {
    RaisedTop(s, Titled(s, action.title));
    hide Raised, Titled;
  }

  lemma LaunchAdds(fbW: int, s: seq<Window>, action: Action)
    requires action.Launch? && Titled(s, action.title) < 0
    ensures var s' := Acted(fbW, s, [], action);
      if |s| < 8 then |s'| == |s| + 1 && s'[..|s|] == s && s'[|s|].title == action.title else s' == s
  {
    hide Raised, Titled;
  }

  lemma TitledIs(s: seq<Window>, title: string)
    ensures HasTitle(s, title) <==> Titled(s, title) >= 0
  {
    hide Titled;
  }

  lemma RaisedTop(s: seq<Window>, p: nat)
    requires p < |s|
    ensures |Raised(s, p)| == |s| && Raised(s, p)[|s| - 1] == s[p]
  {
  }

  /**
   A press on the body of the front window that lies over another window's title bar is not the end of it:
   the covered window is grabbed, and so raised.
   */
  lemma CoveredTitleGrabs(fbW: int, s: seq<Window>, ws: seq<Window>, input: Input, t: nat)
    requires input.action.NoAction? && input.hook.NoAction? && !input.OnBars() && input.pressed
    requires s != [] && s[|s| - 1].Hit(Body, input.mx, input.my) && Frontmost(s, Titlebar, input.mx, input.my, t)
    requires forall p :: 0 <= p < |s| ==> !s[p].Hit(Button, input.mx, input.my)
    ensures t < |s| - 1 && Clicked(fbW, s, ws, input) == s && Grabbed(fbW, s, ws, input, true) == t
  {
    HitBoxes(s[|s| - 1], input.mx, input.my);
    hide Window.Hit, Raised;
    RaisedLast(s);
    assert FrontHit(s, Button, input.mx, input.my) == -1;
    assert FrontHit(s, Body, input.mx, input.my) == |s| - 1;
    FrontIs(s, Titlebar, input.mx, input.my, t);
  }

  lemma FrontIs(s: seq<Window>, part: Part, mx: int, my: int, p: nat)
    requires Frontmost(s, part, mx, my, p)
    ensures FrontHit(s, part, mx, my) == p
  {
    hide Window.Hit;
  }

  /** A window is gone after a press only when it is the frontmost one whose close button was hit. */
  lemma OnlyCloseCloses(fbW: int, s: seq<Window>, ws: seq<Window>, input: Input, win: Window)
    requires win in s && (input.hook.NoAction? || input.hook.Launch?)
    ensures var acted := Acted(fbW, s, ws, input.action);
      win !in Clicked(fbW, s, ws, input) ==>
        !input.OnBars() && FrontHit(acted, Button, input.mx, input.my) >= 0
        && acted[FrontHit(acted, Button, input.mx, input.my)] == win
  {
    hide Acted, Raised, Without, FrontHit;
    var acted := Acted(fbW, s, ws, input.action);
    ActedKeeps(fbW, s, ws, input.action, win);
    var c, b := FrontHit(acted, Button, input.mx, input.my), FrontHit(acted, Body, input.mx, input.my);
    if c >= 0 && acted[c] != win {
      WithoutKeeps(acted, c, win);
    } else if b >= 0 {
      RaisedKeeps(acted, b, win);
      ActedKeeps(fbW, Raised(acted, b), [], input.hook, win);
    }
  }

  lemma RaisedKeeps<T>(s: seq<T>, p: nat, e: T)
    requires p < |s| && e in s
    ensures e in Raised(s, p)
  {
    if e != s[p] {
      WithoutKeeps(s, p, e);
    }
  }

  lemma ActedKeeps(fbW: int, s: seq<Window>, ws: seq<Window>, action: Action, win: Window)
    requires win in s
    ensures win in Acted(fbW, s, ws, action)
  {
    hide Raised;
    forall p: nat | p < |s|
      ensures win in Raised(s, p)
    {
      RaisedKeeps(s, p, win);
    }
  }

  /** Shifts the elements after `from` down by one place, below n. */
  method ShiftDown<T>(a: array<T>, from: nat, n: nat)
    requires from < n <= a.Length
    modifies a
    ensures a[..n - 1] == Without(old(a[..n]), from) && a[n - 1..] == old(a[n - 1..])
  {
    var i := from;
    while i < n - 1
      invariant from <= i <= n - 1
      invariant forall j :: 0 <= j < from ==> a[j] == old(a[j])
      invariant forall j :: from <= j < i ==> a[j] == old(a[j + 1])
      invariant forall j :: i <= j < a.Length ==> a[j] == old(a[j])
    {
      a[i] := a[i + 1];
      i := i + 1;
    }
  }

  class Desktop {
    const windows: array<Window>
    const zOrder: array<nat>
    const fbW: int
    var count: nat
    var dragging: int
    var dragDx: int
    var dragDy: int
    var prevPressed: bool

    ghost predicate Shaped()
      reads this
    {
      windows.Length == zOrder.Length == MAX_WINDOWS && count <= MAX_WINDOWS
    }

    ghost function Order(): seq<nat>
      requires Shaped()
      reads this, zOrder
    {
      zOrder[..count]
    }

    ghost function All(): seq<Window>
      requires Shaped()
      reads this, windows
    {
      windows[..count]
    }

    ghost predicate Ordered()
      reads this, zOrder
    {
      Shaped() && IsPermutation(Order())
    }

    ghost predicate Valid()
      reads this, windows, zOrder
    {
      Ordered() && TitlesDistinct(All())
    }

    ghost function Layers(): (s: seq<Window>)
      requires Ordered()
      reads this, windows, zOrder
      ensures |s| == count
    {
      Stack(All(), Order())
    }

    /** A window is only dragged while the button stays down; it is a live one, and in front. */
    ghost predicate DragOk()
      requires Shaped()
      reads this, zOrder
    {
      dragging == -1 || (prevPressed && 0 < count && dragging == zOrder[count - 1])
    }

    constructor (fbW: int)
      ensures Valid() && DragOk() && Layers() == [] && this.fbW == fbW && fresh(windows) && fresh(zOrder)
    {
      this.fbW := fbW;
      windows := new Window[MAX_WINDOWS](i => Window(0, 0, 0, 0, "", 0));
      zOrder := new nat[MAX_WINDOWS](i => 0);
      count, dragging, dragDx, dragDy, prevPressed := 0, -1, 0, 0, false;
    }

    /** Moves window idx to the top of the stack; an index that no window has changes nothing. */
    method BringToFront(idx: int, ghost p: int)
      requires Ordered() && (0 <= idx < count ==> 0 <= p < count && zOrder[p] == idx)
      modifies zOrder
      ensures Ordered() && All() == old(All())
      ensures 0 <= idx < count ==> Order() == Raised(old(Order()), p) && Layers() == Raised(old(Layers()), p)
      ensures 0 <= idx < count ==> zOrder[count - 1] == idx && Brought(old(Order()), Order(), idx)
      ensures !(0 <= idx < count) ==> Order() == old(Order()) && Layers() == old(Layers())
    {
      hide IsPermutation, Stack, Brought, Raised;
      ghost var ws, z := All(), Order();
      assert 0 <= idx < count ==> z[p] == idx;
      var pos, i := -1, 0;
      while i < count
        invariant 0 <= i <= count && pos == -1
        invariant forall j :: 0 <= j < i ==> zOrder[j] != idx
      {
        if zOrder[i] == idx {
          pos := i;
          Occurs(ws, z, i);
          assert z[i] == idx && i == p;
          break;
        }
        i := i + 1;
      }
      if pos == -1 || pos == count - 1 {
        if pos != -1 {
          BroughtSame(ws, z);
        }
        return;
      }
      ShiftDown(zOrder, pos, count);
      zOrder[count - 1] := idx;
      assert Order() == Without(z, pos) + [idx];
      BroughtTo(ws, z, Order(), pos);
    }

    /** Closes window idx: the arrays stay dense, and the rest of the stack keeps its order. */
    method CloseWindow(idx: int, ghost p: nat)
      requires Valid() && (0 <= idx < count ==> p < count && zOrder[p] == idx)
      modifies this`count, windows, zOrder
      ensures Valid()
      ensures if 0 <= idx < old(count) then All() == Without(old(All()), idx) && Layers() == Without(old(Layers()), p)
              else All() == old(All()) && Order() == old(Order())
    {
      if idx < 0 || idx >= count {
        return;
      }
      ghost var ws, z := All(), Order();
      CloseStack(ws, z, p);
      TitlesWithout(ws, idx);
      var i := 0;
      while i < count
        invariant 0 <= i <= p && Order() == z && All() == ws
        invariant forall j :: 0 <= j < i ==> zOrder[j] != idx
      {
        if zOrder[i] == idx {
          ShiftDown(zOrder, i, count);
          break;
        }
        i := i + 1;
      }
      assert i == p && zOrder[..count - 1] == Without(z, p);
      ShiftDown(windows, idx, count);
      count := count - 1;
      RenumberAbove(idx);
    }

    /** The last loop of close_window. */
    method RenumberAbove(idx: nat)
      requires Shaped()
      modifies zOrder
      ensures Order() == Renumbered(old(Order()), idx)
    {
      ghost var kept := Order();
      var i := 0;
      while i < count
        invariant 0 <= i <= count
        invariant forall j :: 0 <= j < i ==> zOrder[j] == Renumbered(kept, idx)[j]
        invariant forall j :: i <= j < count ==> zOrder[j] == kept[j]
      {
        if zOrder[i] > idx {
          zOrder[i] := zOrder[i] - 1;
        }
        i := i + 1;
      }
    }

    /** The lowest index of a window with this title, or -1. */
    method FindWindowByTitle(title: string) returns (idx: int)
      requires Valid()
      ensures -1 <= idx < count
      ensures idx == -1 ==> forall i :: 0 <= i < count ==> windows[i].title != title
      ensures idx != -1 ==> windows[idx].title == title
    {
      idx := 0;
      while idx < count
        invariant 0 <= idx <= count
        invariant forall i :: 0 <= i < idx ==> windows[i].title != title
      {
        if windows[idx].title == title {
          return;
        }
        idx := idx + 1;
      }
      idx := -1;
    }

    /** Opens a window on top, or returns -1 when there is no free slot. Titles are the caller's business. */
    method SpawnWindow(title: string, w: int, h: int, app: nat) returns (idx: int)
      requires Ordered()
      modifies this`count, windows, zOrder
      ensures Ordered() && idx == if old(count) < 8 then old(count) else -1
      ensures idx == -1 ==> count == old(count) && All() == old(All()) && Order() == old(Order())
      ensures idx != -1 ==> count == old(count) + 1 && Order() == old(Order()) + [idx]
      ensures idx != -1 ==> All() == old(All()) + [Placed(fbW, old(count), title, w, h, app)]
      ensures idx != -1 ==> Layers() == old(Layers()) + [Placed(fbW, old(count), title, w, h, app)]
      ensures idx != -1 ==> All()[idx].title == title && All()[idx].w == w && All()[idx].h == h && All()[idx].app == app
      ensures idx != -1 ==> All()[idx].x == Leftmost(72 + 18 * idx, fbW - w) && All()[idx].y == 40 + 18 * idx
      ensures idx != -1 ==> (Valid() <==> old(Valid()) && Titled(old(Layers()), title) == -1)
    {
      hide IsPermutation, TitlesDistinct;
      if count >= MAX_WINDOWS {
        return -1;
      }
      ghost var ws, z := All(), Order();
      idx := count;
      var x, y := TASKBAR_W + 24 + idx * 18, 40 + idx * 18;
      if x + w > fbW {
        x := fbW - w;
      }
      if x < TASKBAR_W {
        x := TASKBAR_W;
      }
      windows[idx] := Window(x, y, w, h, title, app);
      zOrder[count] := idx;
      count := count + 1;
      OpenStack(ws, z, windows[idx]);
      OpenTitles(ws, z, windows[idx]);
      assert All() == ws + [windows[idx]] && Order() == z + [|z|];
    }

    /** Raises the window with this title, opening it first if there is none. */
    method SpawnOrFocus(title: string, w: int, h: int, app: nat) returns (idx: int)
      requires Valid()
      modifies this`count, windows, zOrder
      ensures Valid() && count >= old(count) && All()[..old(count)] == old(All())
      ensures Layers() == Acted(fbW, old(Layers()), [], Launch(title, w, h, app))
      ensures 0 <= idx < old(count) ==>
                Brought(old(Order()), Order(), idx)
      ensures 0 <= idx < old(count) || idx == -1 ==> count == old(count)
      ensures idx >= old(count) ==> count == old(count) + 1 && Order() == old(Order()) + [idx]
      ensures idx == -1 ==> Order() == old(Order())
      ensures idx == -1 || idx >= old(count) ==> forall i :: 0 <= i < old(count) ==> All()[i].title != title
      ensures idx == -1 <==> old(count) == MAX_WINDOWS && Titled(old(Layers()), title) == -1
      ensures idx != -1 ==> 0 <= idx < count && windows[idx].title == title && zOrder[count - 1] == idx
    {
      hide IsPermutation, TitlesDistinct, Stack, Raised, Titled, Brought;
      idx := FindWindowByTitle(title);
      if idx == -1 {
        TitledNowhere(All(), Order(), title);
        idx := SpawnWindow(title, w, h, app);
        if idx != -1 {
          RaisedLast(Layers());
          RaisedLast(Order());
          ghost var z := Order();
          BringToFront(idx, count - 1);
          assert Order() == z;
        }
        return;
      }
      ghost var p := Position(Order(), idx);
      TitledAt(All(), Order(), p);
      BringToFront(idx, p);
    }

    /** Carries out what the taskbar or an app asks for. */
    method Perform(action: Action)
      requires Valid()
      modifies this`count, windows, zOrder
      ensures Valid() && count >= old(count)
      ensures Layers() == Acted(fbW, old(Layers()), old(All()), action)
      ensures action.NoAction? || action.Leave? ==> All() == old(All()) && Order() == old(Order())
      ensures action.Select? && action.index >= old(count) ==> All() == old(All()) && Order() == old(Order())
      ensures action.Select? && action.index < old(count) ==>
                All() == old(All()) && zOrder[count - 1] == action.index && Brought(old(Order()), Order(), action.index)
    {
      hide IsPermutation, TitlesDistinct, Stack, Raised, Titled, Brought;
      match action {
        case NoAction =>
        case Leave =>
        case Launch(title, w, h, app) => var idx := SpawnOrFocus(title, w, h, app);
        case Select(idx) =>
          ghost var p: int := -1;
          if idx < count {
            p := Position(Order(), idx);
            TitledAt(All(), Order(), p);
          }
          BringToFront(idx, p);
      }
    }

    /** Closes the frontmost window whose close button the pointer is on. */
    method ClickClose(mx: int, my: int) returns (closed: bool)
      requires Valid()
      modifies this`count, windows, zOrder
      ensures Valid() && closed == (FrontHit(old(Layers()), Button, mx, my) >= 0)
      ensures if closed then Layers() == Without(old(Layers()), FrontHit(old(Layers()), Button, mx, my))
              else All() == old(All()) && Order() == old(Order())
    {
      hide IsPermutation, TitlesDistinct, Stack, Without;
      var i: int := count - 1;
      ghost var s := Layers();
      ghost var front := FrontHit(s, Button, mx, my);
      while i >= 0
        invariant front <= i < count && Valid() && Layers() == s && All() == old(All()) && Order() == old(Order())
        decreases i + 1
      {
        Occurs(All(), Order(), i);
        var idx := zOrder[i];
        var win := windows[idx];
        if win.InCloseButton(mx, my) {
          assert win.Hit(Button, mx, my);
          CloseWindow(idx, i);
          return true;
        }
        i := i - 1;
      }
      return false;
    }

    /** Raises the frontmost window whose body the pointer is on, and lets its app react. */
    method ClickBody(mx: int, my: int, hook: Action)
      requires Valid() && !hook.Select?
      modifies this`count, windows, zOrder
      ensures Valid() && count >= old(count)
      ensures var p := FrontHit(old(Layers()), Body, mx, my);
        Layers() == if p < 0 then old(Layers()) else Acted(fbW, Raised(old(Layers()), p), [], hook)
    {
      hide IsPermutation, TitlesDistinct, Stack, Raised;
      var i: int := count - 1;
      ghost var s := Layers();
      ghost var front := FrontHit(s, Body, mx, my);
      while i >= 0
        invariant front <= i < count && Valid() && Layers() == s && All() == old(All()) && Order() == old(Order())
        decreases i + 1
      {
        Occurs(All(), Order(), i);
        var idx := zOrder[i];
        var win := windows[idx];
        if win.InBody(mx, my) {
          assert win.Hit(Body, mx, my);
          BringToFront(idx, i);
          Perform(hook);
          return;
        }
        i := i - 1;
      }
    }

    /** Starts dragging the frontmost window whose title bar the pointer is on. */
    method StartDrag(mx: int, my: int)
      requires Valid() && dragging == -1
      modifies this`dragging, this`dragDx, this`dragDy, zOrder
      ensures Valid() && All() == old(All())
      ensures var t := FrontHit(old(Layers()), Titlebar, mx, my);
        && Layers() == Touched(old(Layers()), t)
        && (dragging != -1 <==> t >= 0)
        && (t >= 0 ==> dragDx == mx - old(Layers())[t].x && dragDy == my - old(Layers())[t].y)
      ensures dragging != -1 ==> 0 < count && dragging == zOrder[count - 1]
      ensures dragging == -1 ==> Order() == old(Order())
    {
      hide IsPermutation, TitlesDistinct, Stack, Raised;
      var i: int := count - 1;
      ghost var s := Layers();
      ghost var front := FrontHit(s, Titlebar, mx, my);
      while i >= 0
        invariant front <= i < count && Valid() && Layers() == s && dragging == -1 && Order() == old(Order())
        decreases i + 1
      {
        Occurs(All(), Order(), i);
        var win := windows[zOrder[i]];
        if win.InTitlebar(mx, my) {
          assert win.Hit(Titlebar, mx, my);
          dragging := zOrder[i];
          dragDx := mx - win.x;
          dragDy := my - win.y;
          BringToFront(dragging, i);
          break;
        }
        i := i - 1;
      }
    }

    /** The dragged window follows the pointer, kept clear of the bars; no other window moves. */
    method MoveDragged(mx: int, my: int)
      requires Valid() && DragOk() && dragging != -1
      modifies windows
      ensures Valid() && Layers() == Dragged(old(Layers()), mx - dragDx, my - dragDy)
      ensures windows[dragging].x == AtLeast(mx - dragDx, 48) && windows[dragging].y == AtLeast(my - dragDy, 20)
      ensures var was := old(windows[dragging]);
        All() == old(All())[dragging := was.(x := AtLeast(mx - dragDx, TASKBAR_W),
                                     y := AtLeast(my - dragDy, MENUBAR_H))]
    {
      hide IsPermutation, TitlesDistinct;
      ghost var s, ws := Layers(), All();
      Occurs(ws, Order(), count - 1);
      var nx, ny := mx - dragDx, my - dragDy;
      if nx < TASKBAR_W {
        nx := TASKBAR_W;
      }
      if ny < MENUBAR_H {
        ny := MENUBAR_H;
      }
      if nx != windows[dragging].x || ny != windows[dragging].y {
        windows[dragging] := windows[dragging].(x := nx, y := ny);
      }
      TitlesMoved(ws, All());
      forall i | 0 <= i < count
        ensures Layers()[i] == Dragged(s, mx - dragDx, my - dragDy)[i]
      {
        Occurs(All(), Order(), i);
        Occurs(ws, Order(), i);
      }
    }

    /** A press of the button: the bars first, then close buttons, then the window bodies. */
    method Click(input: Input) returns (consumed: bool)
      requires Valid() && (input.hook.NoAction? || input.hook.Launch?)
      modifies this`count, windows, zOrder
      ensures Valid() && Layers() == Clicked(fbW, old(Layers()), old(All()), input)
      ensures consumed == Consumed(fbW, old(Layers()), old(All()), input)
      ensures input.OnBars() && !input.action.Launch? ==>
                consumed && All() == old(All())
                && if input.action.Select? && input.action.index < old(count)
                   then zOrder[count - 1] == input.action.index && Brought(old(Order()), Order(), input.action.index)
                   else Order() == old(Order())
    {
      hide IsPermutation, TitlesDistinct, Stack, Raised, Without, Acted;
      Perform(input.action);
      consumed := input.onTaskbar || input.onMenubar;
      if !consumed {
        consumed := ClickClose(input.mx, input.my);
        if !consumed {
          ClickBody(input.mx, input.my, input.hook);
        }
      }
    }

    /**
     One round of the event loop: a fresh press acts on the stack, then a drag starts, goes on or ends.
     Keys go to the front window's app, which changes neither array.
     */
    method Round(input: Input) returns (left: bool)
      requires Valid() && DragOk() && (input.hook.NoAction? || input.hook.Launch?)
      modifies this`count, this`dragging, this`dragDx, this`dragDy, this`prevPressed, windows, zOrder
      ensures Valid() && DragOk()
      ensures left == (input.pressed && !old(prevPressed) && input.action.Leave?)
      ensures left ==> Layers() == old(Layers()) && All() == old(All()) && Order() == old(Order())
      ensures !left ==> prevPressed == input.pressed
      ensures !left && !input.pressed ==> dragging == -1 && All() == old(All()) && Order() == old(Order())
      ensures !left && input.pressed && !old(prevPressed) && input.OnBars() && !input.action.Launch? ==>
                All() == old(All()) && dragging == -1
                && if input.action.Select? && input.action.index < old(count)
                   then zOrder[count - 1] == input.action.index && Brought(old(Order()), Order(), input.action.index)
                   else Order() == old(Order())
      ensures old(dragging) != -1 && input.pressed ==>
                && dragging == old(dragging) && dragDx == old(dragDx) && dragDy == old(dragDy)
                && Layers() == Dragged(old(Layers()), input.mx - dragDx, input.my - dragDy)
      ensures !left && old(dragging) == -1 && input.pressed ==>
                var clicked, s := !old(prevPressed), old(Layers());
                var s' := if clicked then Clicked(fbW, s, old(All()), input) else s;
                var t := Grabbed(fbW, s, old(All()), input, clicked);
                if t < 0 then Layers() == s' && dragging == -1
                else Layers() == Dragged(Raised(s', t), s'[t].x, s'[t].y) && dragging != -1
                     && dragDx == input.mx - s'[t].x && dragDy == input.my - s'[t].y
    {
      hide IsPermutation, TitlesDistinct, Stack, Raised, Without, Clicked, Consumed;
      var clicked, consumed := input.pressed && !prevPressed, false;
      if clicked {
        if input.action.Leave? {
          return true;
        }
        consumed := Click(input);
      }
      if input.pressed && dragging == -1 && !consumed {
        StartDrag(input.mx, input.my);
      } else if !input.pressed {
        dragging := -1;
      }
      prevPressed := input.pressed;
      if dragging != -1 {
        MoveDragged(input.mx, input.my);
      }
      return false;
    }
  }

  /** A left edge: x unless that is past the last one that fits, but never under the taskbar. */
  function Leftmost(x: int, last: int): (r: int)
    ensures r >= 48 && (48 <= x <= last ==> r == x) && (48 <= last < x ==> r == last)
    ensures x < 48 || last < 48 ==> r == 48
  {
    AtLeast(if x <= last then x else last, TASKBAR_W)
  }

  function AtLeast(a: int, b: int): (r: int)
    ensures r >= a && r >= b && (r == a || r == b)
  {
    if a < b then b else a
  }

  ghost function Position(z: seq<nat>, idx: nat): (p: nat)
    requires IsPermutation(z) && idx < |z|
    ensures p < |z| && z[p] == idx
  {
    assert idx in z;
    var p :| 0 <= p < |z| && z[p] == idx;
    p
  }
}
