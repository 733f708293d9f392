/** helpText.js's `HelpTextMaker`: a chainable builder of help text. Text goes
    either into the fragment list (no mode set) or into the dictionary buffer
    (while a `dict`/`key`/`value` mode is set); `endDict` replays the buffer as
    aligned fragments and `toString` renders, optionally word-wrapped.

    The JavaScript methods return `this` for chaining; here they return nothing
    and a chain is a sequence of calls. */
module HelpText {
  import opened Strings
  import opened AnsiStyle
  import opened Fragments
  import opened Wrap

  /** The top of the wrap-indent stack (`_peek(this._wrapIndent)`). */
  function TopOf(s: seq<nat>): nat
    requires |s| > 0
  {
    s[|s| - 1]
  }

  /** `popWrap` on the stack: the top goes unless it is the base. */
  function PopIndent(s: seq<nat>): (r: seq<nat>)
    requires |s| >= 1
    ensures |r| >= 1 && r[0] == s[0] && r <= s
    ensures |s| > 1 ==> |r| == |s| - 1
  {
    if |s| > 1 then s[..|s| - 1] else s
  }

  /** `pushWrap(n)` on the stack; popping afterwards restores it exactly. */
  function PushIndent(s: seq<nat>, n: nat): (r: seq<nat>)
    requires |s| >= 1
    ensures |r| == |s| + 1 && TopOf(r) == n && s <= r
    ensures PopIndent(r) == s
  {
    assert (s + [n])[..|s|] == s;
    s + [n]
  }

  /** The widest key, where there is one; with no key the width is never used. */
  function MaxKey(es: seq<Entry>, width: string -> nat): (r: nat)
    ensures forall i :: 0 <= i < |es| && es[i].mode == InKey ==> KeyWidth(es[i], width) <= r
    ensures HasMode(es, InKey) ==> exists i :: 0 <= i < |es| && es[i].mode == InKey && KeyWidth(es[i], width) == r
  {
    match Max(KeyWidths(es, width))
    case Some(m) => m
    case None => 0
  }

  /** Bold text, as `bold(text)` emits it. */
  function Bolded(s: string): string
  {
    BOLD.Apply(s)
  }

  /** The parameter style `style(cyan.bright, underline)`. */
  function ParamStyle(): StyleFn
  {
    Compose([Fn(CYAN.bright), Fn(UNDERLINE)])
  }

  /** The flag list: each flag in bright green, separated by ", ". */
  function FlagText(flags: seq<string>): string
  {
    Join(MapSeq(GREEN.bright.Apply, flags), ", ")
  }

  class HelpTextMaker {
    const name: string
    /** The library's `style.len`, which both `endDict` and `toString` measure with. */
    const measure: Measure
    var mode: Mode
    var fragments: seq<Fragment>
    var buffer: seq<Entry>
    var wrapOn: bool
    var indents: seq<nat>

    /** The stack keeps its base 0; adjacent fragments and adjacent buffer entries
        differ in their key, and buffer entries carry a mode. */
    ghost predicate Valid()
      reads this
    {
      |indents| >= 1 && indents[0] == 0 &&
      Separated(fragments) && EntriesSeparated(buffer) && Buffered(buffer)
    }

    /** The effect of one `text()` call: with no mode, the pieces go into the
        fragment list at the stack top; with a mode, into the buffer under it. */
    twostate predicate Appended(t: seq<string>)
      reads this
    {
      mode == old(mode) && wrapOn == old(wrapOn) && indents == old(indents) && |old(indents)| > 0 &&
      if old(mode) == NoMode then
        fragments == AddFragment(old(fragments), TopOf(old(indents)), t) && buffer == old(buffer)
      else
        fragments == old(fragments) && buffer == AddEntry(old(buffer), old(mode), t)
    }

    constructor (name: string, measure: Measure)
      ensures Valid()
      ensures this.name == name && this.measure == measure && mode == NoMode && fragments == [] && buffer == []
      ensures !wrapOn && indents == [0]
    {
      this.name := name;
      this.measure := measure;
      mode := NoMode;
      fragments := [];
      buffer := [];
      wrapOn := false;
      indents := [0];
    }

    method PushWrap(n: nat)
      requires Valid()
      modifies this
      ensures Valid()
      ensures indents == PushIndent(old(indents), n)
      ensures mode == old(mode) && fragments == old(fragments) && buffer == old(buffer) && wrapOn == old(wrapOn)
    {
      indents := indents + [n];
    }

    method PopWrap()
      requires Valid()
      modifies this
      ensures Valid()
      ensures indents == PopIndent(old(indents))
      ensures mode == old(mode) && fragments == old(fragments) && buffer == old(buffer) && wrapOn == old(wrapOn)
    {
      if |indents| > 1 {
        indents := indents[..|indents| - 1];
      }
    }

    method Wrap(b: bool)
      requires Valid()
      modifies this
      ensures Valid()
      ensures wrapOn == b
      ensures mode == old(mode) && fragments == old(fragments) && buffer == old(buffer) && indents == old(indents)
    {
      wrapOn := b;
    }

    /** `text(...pieces)`, with the pieces already flattened. */
    method Text(t: seq<string>)
      requires Valid()
      modifies this
      ensures Valid()
      ensures Appended(t)
    {
      if mode != NoMode {
        AddEntryKeeps(buffer, mode, t);
        if |buffer| > 0 && buffer[|buffer| - 1].mode == mode {
          var last := buffer[|buffer| - 1];
          buffer := buffer[..|buffer| - 1] + [Entry(mode, last.text + t)];
        } else {
          buffer := buffer + [Entry(mode, t)];
        }
      } else {
        var wrapIndent := indents[|indents| - 1];
        AddFragmentKeeps(fragments, wrapIndent, t);
        if |fragments| > 0 && fragments[|fragments| - 1].wrapIndent == wrapIndent {
          var last := fragments[|fragments| - 1];
          fragments := fragments[..|fragments| - 1] + [Fragment(wrapIndent, last.text + t)];
        } else {
          fragments := fragments + [Fragment(wrapIndent, t)];
        }
      }
    }

    method Bold(s: string)
      requires Valid()
      modifies this
      ensures Valid()
      ensures Appended([Bolded(s)])
    {
      Text([Bolded(s)]);
    }

    method Title()
      requires Valid()
      modifies this
      ensures Valid()
      ensures Appended([Bolded(name)])
    {
      Bold(name);
    }

    method Name()
      requires Valid()
      modifies this
      ensures Valid()
      ensures Appended([name])
    {
      Text([name]);
    }

    method Nl()
      requires Valid()
      modifies this
      ensures Valid()
      ensures Appended(["\n"])
    {
      Text(["\n"]);
    }

    method Tab()
      requires Valid()
      modifies this
      ensures Valid()
      ensures Appended([TAB])
    {
      Text([TAB]);
    }

    method Space()
      requires Valid()
      modifies this
      ensures Valid()
      ensures Appended([" "])
    {
      Text([" "]);
    }

    method Usage()
      requires Valid()
      modifies this
      ensures Valid()
      ensures Appended([Bolded("Usage:")])
    {
      Bold("Usage:");
    }

    method Flags()
      requires Valid()
      modifies this
      ensures Valid()
      ensures Appended([Bolded("Flags:")])
    {
      Bold("Flags:");
    }

    method Params()
      requires Valid()
      modifies this
      ensures Valid()
      ensures Appended([Bolded("Parameters:")])
    {
      Bold("Parameters:");
    }

    method Param(p: string)
      requires Valid()
      modifies this
      ensures Valid()
      ensures Appended([ParamStyle().Apply(p)])
    {
      Text([ParamStyle().Apply(p)]);
    }

    method Flag(flags: seq<string>)
      requires Valid()
      modifies this
      ensures Valid()
      ensures Appended([FlagText(flags)])
    {
      Text([FlagText(flags)]);
    }

    /** `dict`, `key`, `value` and `end` only set the mode. */
    method Dict()
      requires Valid()
      modifies this
      ensures Valid()
      ensures mode == InDict
      ensures fragments == old(fragments) && buffer == old(buffer) && wrapOn == old(wrapOn) && indents == old(indents)
    {
      mode := InDict;
    }

    method Key()
      requires Valid()
      modifies this
      ensures Valid()
      ensures mode == InKey
      ensures fragments == old(fragments) && buffer == old(buffer) && wrapOn == old(wrapOn) && indents == old(indents)
    {
      mode := InKey;
    }

    method Value()
      requires Valid()
      modifies this
      ensures Valid()
      ensures mode == InValue
      ensures fragments == old(fragments) && buffer == old(buffer) && wrapOn == old(wrapOn) && indents == old(indents)
    {
      mode := InValue;
    }

    /** `end` closes a key or value and returns to the plain dictionary mode. */
    method End()
      requires Valid()
      modifies this
      ensures Valid()
      ensures mode == InDict
      ensures fragments == old(fragments) && buffer == old(buffer) && wrapOn == old(wrapOn) && indents == old(indents)
    {
      mode := InDict;
    }

    /** `endDict`: leave dictionary mode and replay the buffer, in order, as
        fragments: keys padded to the widest key, values behind a tab at the
        widest key plus four, everything else verbatim at the stack top. */
    method EndDict()
      requires Valid() && Replayable(buffer)
      modifies this
      ensures Valid()
      ensures mode == NoMode && buffer == []
      ensures indents == old(indents) && wrapOn == old(wrapOn)
      ensures fragments == Replay(old(fragments), old(buffer), TopOf(old(indents)),
                                  MaxKey(old(buffer), measure.width), measure.width)
    {
      mode := NoMode;
      var maxKey := MaxKey(buffer, measure.width);
      ReplayAll(buffer, indents[|indents| - 1], maxKey, measure.width);
      buffer := [];
    }

    /** The `forEach` of helpText.js:131-143: the entries replayed in order. */
    method ReplayAll(entries: seq<Entry>, base: nat, maxKey: nat, width: string -> nat)
      requires Valid() && mode == NoMode && TopOf(indents) == base
      modifies this
      ensures Valid()
      ensures mode == old(mode) && indents == old(indents) && wrapOn == old(wrapOn) && buffer == old(buffer)
      ensures fragments == Replay(old(fragments), entries, base, maxKey, width)
    {
      var i := 0;
      while i < |entries|
        invariant 0 <= i <= |entries|
        invariant Valid() && mode == NoMode && TopOf(indents) == base
        invariant indents == old(indents) && wrapOn == old(wrapOn) && buffer == old(buffer)
        invariant fragments == Replay(old(fragments), entries[..i], base, maxKey, width)
      {
        ReplayEntry(entries[i], base, maxKey, width);
        ReplayStep(old(fragments), entries, i, base, maxKey, width);
        i := i + 1;
      }
      assert entries[..i] == entries;
    }

    /** One buffered entry replayed (helpText.js:131-143): a value goes behind a
        tab at the widest key plus four, a key is padded out to the widest key,
        anything else goes out verbatim, all at the enclosing indent otherwise. */
    method ReplayEntry(d: Entry, base: nat, maxKey: nat, width: string -> nat)
      requires Valid() && mode == NoMode && TopOf(indents) == base
      modifies this
      ensures Valid()
      ensures mode == old(mode) && indents == old(indents) && wrapOn == old(wrapOn) && buffer == old(buffer)
      ensures fragments == AddFragment(old(fragments), EntryIndent(d, base, maxKey), EntryPieces(d, maxKey, width))
    {
      if d.mode == InValue {
        assert EntryIndent(d, base, maxKey) == maxKey + 4 && EntryPieces(d, maxKey, width) == [TAB] + d.text;
        ReplayValue(d.text, maxKey);
      } else if d.mode == InKey {
        assert d == Entry(InKey, d.text);
        assert EntryIndent(d, base, maxKey) == base && EntryPieces(d, maxKey, width) == d.text + KeyPad(d, maxKey, width);
        ReplayKey(d.text, base, maxKey, width);
      } else {
        assert EntryIndent(d, base, maxKey) == base && EntryPieces(d, maxKey, width) == d.text;
        Text(d.text);
      }
    }

    /** A value entry: `pushWrap(maxKey + 4).tab.text(...).popWrap()` (helpText.js:132-133). */
    method ReplayValue(text: seq<string>, maxKey: nat)
      requires Valid() && mode == NoMode
      modifies this
      ensures Valid()
      ensures mode == old(mode) && indents == old(indents) && wrapOn == old(wrapOn) && buffer == old(buffer)
      ensures fragments == AddFragment(old(fragments), maxKey + 4, [TAB] + text)
    {
      PushWrap(maxKey + 4);
      Tab();
      ghost var f1 := fragments;
      Text(text);
      assert fragments == AddFragment(f1, maxKey + 4, text);
      PopWrap();
      AddFragmentTwice(old(fragments), maxKey + 4, [TAB], text);
    }

    /** A key entry, padded out to the widest key (helpText.js:134-139). */
    method ReplayKey(text: seq<string>, base: nat, maxKey: nat, width: string -> nat)
      requires Valid() && mode == NoMode && TopOf(indents) == base
      modifies this
      ensures Valid()
      ensures mode == old(mode) && indents == old(indents) && wrapOn == old(wrapOn) && buffer == old(buffer)
      ensures fragments == AddFragment(old(fragments), base, text + KeyPad(Entry(InKey, text), maxKey, width))
    {
      var len := KeyWidth(Entry(InKey, text), width);
      if len < maxKey {
        KeyPadded(fragments, base, text, maxKey, width);
      } else {
        KeyUnpadded(fragments, base, text, maxKey, width);
      }
      Text(text);
      PadKey(len, maxKey);
    }

    /** The padding after a key of visible width `len` (helpText.js:137-139). */
    method PadKey(len: nat, maxKey: nat)
      requires Valid() && mode == NoMode
      modifies this
      ensures Valid()
      ensures mode == old(mode) && indents == old(indents) && wrapOn == old(wrapOn) && buffer == old(buffer)
      ensures len < maxKey ==> fragments == AddFragment(old(fragments), TopOf(indents), [Spaces(maxKey - len)])
      ensures len >= maxKey ==> fragments == old(fragments)
    {
      if len < maxKey {
        Text([Spaces(maxKey - len)]);
      }
    }

    /** `toString(wrap)`, with the effective wrap width already chosen: the
        fragments rendered in order, word-wrapped when wrapping is switched on. */
    method ToString(width: int) returns (s: string)
      ensures s == Render(fragments, 0, if wrapOn then width else -1, measure)
      ensures !wrapOn ==> s == Join(AllText(fragments), "")
    {
      var wrap := if wrapOn then width else -1;
      s := RenderAll(fragments, wrap, measure);
      if !wrapOn {
        RenderUnwrapped(fragments, 0, wrap, measure);
      }
    }
  }
}
