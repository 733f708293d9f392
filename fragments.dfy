/** The buffers of helpText.js's HelpTextMaker as values: the fragment list
    `_text`, the dictionary buffer `_dictText`, the merge-on-append rule of `text()`
    and the rewrite that `endDict` performs. The class in help_text.dfy is proved
    against these functions. */
module Fragments {
  import opened Strings

  /** `_mode`: null, 'dict', 'key' or 'value'. */
  datatype Mode = NoMode | InDict | InKey | InValue

  /** An entry of `_text`: pieces of text that render at one wrap indent. */
  datatype Fragment = Fragment(wrapIndent: nat, text: seq<string>)

  /** An entry of `_dictText`: pieces of text buffered under one mode. */
  datatype Entry = Entry(mode: Mode, text: seq<string>)

  /** The four-space tab. */
  const TAB: string := "    "

  /** `_peek`: the last element, or nothing (`undefined`) for an empty array. */
  function Peek<T>(s: seq<T>): (r: Option<T>)
    ensures r.Some? <==> |s| > 0
    ensures r.Some? ==> r.value == s[|s| - 1]
  {
    if |s| == 0 then None else Some(s[|s| - 1])
  }

  /** The concatenation of every fragment's pieces, in order. */
  function AllText(fs: seq<Fragment>): seq<string>
  {
    if |fs| == 0 then [] else fs[0].text + AllText(fs[1..])
  }

  /** The concatenation of every buffered entry's pieces, in order. */
  function AllEntryText(es: seq<Entry>): seq<string>
  {
    if |es| == 0 then [] else es[0].text + AllEntryText(es[1..])
  }

  /** Adjacent fragments never share a wrap indent. */
  predicate Separated(fs: seq<Fragment>)
  {
    forall i :: 1 <= i < |fs| ==> fs[i - 1].wrapIndent != fs[i].wrapIndent
  }

  /** Adjacent buffer entries never share a mode. */
  predicate EntriesSeparated(es: seq<Entry>)
  {
    forall i :: 1 <= i < |es| ==> es[i - 1].mode != es[i].mode
  }

  /** Buffer entries are only ever made while a mode is set. */
  predicate Buffered(es: seq<Entry>)
  {
    forall i :: 0 <= i < |es| ==> es[i].mode != NoMode
  }

  /** `text()` with no mode set (helpText.js:55-61): merge the pieces into the last
      fragment when it sits at the same wrap indent, otherwise start a new one. */
  function AddFragment(fs: seq<Fragment>, indent: nat, t: seq<string>): (r: seq<Fragment>)
    ensures |r| == if |fs| > 0 && fs[|fs| - 1].wrapIndent == indent then |fs| else |fs| + 1
    ensures r[|r| - 1].wrapIndent == indent
    ensures |fs| > 0 ==> r[..|fs| - 1] == fs[..|fs| - 1]
    ensures |r| == |fs| + 1 ==> r[..|fs|] == fs
    ensures AllText(r) == AllText(fs) + t
  {
    match Peek(fs)
    case Some(last) =>
      if last.wrapIndent == indent then
        MergeFragment(fs, t);
        fs[..|fs| - 1] + [Fragment(indent, last.text + t)]
      else
        AllTextSnoc(fs, Fragment(indent, t));
        SnocPrefix(fs, Fragment(indent, t));
        fs + [Fragment(indent, t)]
    case None =>
      AllTextSnoc(fs, Fragment(indent, t));
      fs + [Fragment(indent, t)]
  }

  /** `text()` with a mode set (helpText.js:47-52): merge the pieces into the last
      buffer entry when it has the same mode, otherwise start a new one. */
  function AddEntry(es: seq<Entry>, mode: Mode, t: seq<string>): (r: seq<Entry>)
    ensures |r| == if |es| > 0 && es[|es| - 1].mode == mode then |es| else |es| + 1
    ensures r[|r| - 1].mode == mode
    ensures |es| > 0 ==> r[..|es| - 1] == es[..|es| - 1]
    ensures |r| == |es| + 1 ==> r[..|es|] == es
    ensures AllEntryText(r) == AllEntryText(es) + t
  {
    match Peek(es)
    case Some(last) =>
      if last.mode == mode then
        MergeEntry(es, t);
        es[..|es| - 1] + [Entry(mode, last.text + t)]
      else
        AllEntryTextSnoc(es, Entry(mode, t));
        SnocPrefix(es, Entry(mode, t));
        es + [Entry(mode, t)]
    case None =>
      AllEntryTextSnoc(es, Entry(mode, t));
      es + [Entry(mode, t)]
  }

  /** Appending one element keeps the sequence, and all but its last element, as a prefix. */
  lemma SnocPrefix<T>(xs: seq<T>, x: T)
    requires |xs| > 0
    ensures (xs + [x])[..|xs|] == xs
    ensures (xs + [x])[..|xs| - 1] == xs[..|xs| - 1]
  {
  }

  /** The merge case of `AddFragment`: the last fragment gains the pieces. */
  lemma MergeFragment(fs: seq<Fragment>, t: seq<string>)
    requires |fs| > 0
    ensures var last := fs[|fs| - 1];
            var r := fs[..|fs| - 1] + [Fragment(last.wrapIndent, last.text + t)];
            r[..|fs| - 1] == fs[..|fs| - 1] && AllText(r) == AllText(fs) + t
  {
    var init, last := fs[..|fs| - 1], fs[|fs| - 1];
    AllTextSnoc(init, last);
    AllTextSnoc(init, Fragment(last.wrapIndent, last.text + t));
    assert init + [last] == fs;
    assert (init + [Fragment(last.wrapIndent, last.text + t)])[..|fs| - 1] == init;
  }

  /** The merge case of `AddEntry`: the last entry gains the pieces. */
  lemma MergeEntry(es: seq<Entry>, t: seq<string>)
    requires |es| > 0
    ensures var last := es[|es| - 1];
            var r := es[..|es| - 1] + [Entry(last.mode, last.text + t)];
            r[..|es| - 1] == es[..|es| - 1] && AllEntryText(r) == AllEntryText(es) + t
  {
    var init, last := es[..|es| - 1], es[|es| - 1];
    AllEntryTextSnoc(init, last);
    AllEntryTextSnoc(init, Entry(last.mode, last.text + t));
    assert init + [last] == es;
    assert (init + [Entry(last.mode, last.text + t)])[..|es| - 1] == init;
  }

  /** Merging keeps adjacent fragments apart. */
  lemma AddFragmentKeeps(fs: seq<Fragment>, indent: nat, t: seq<string>)
    requires Separated(fs)
    ensures Separated(AddFragment(fs, indent, t))
  {
    var r := AddFragment(fs, indent, t);
    var n := if |r| == |fs| then |fs| - 1 else |fs|;
    assert r[..n] == fs[..n];
    forall i | 1 <= i < |r| ensures r[i - 1].wrapIndent != r[i].wrapIndent {
      assert r[i - 1] == r[..n][i - 1] == fs[i - 1];
      if i < n {
        assert r[i] == r[..n][i] == fs[i];
      }
    }
  }

  /** Merging keeps adjacent entries apart, and entries made under a mode keep one. */
  lemma AddEntryKeeps(es: seq<Entry>, mode: Mode, t: seq<string>)
    requires EntriesSeparated(es) && Buffered(es) && mode != NoMode
    ensures EntriesSeparated(AddEntry(es, mode, t)) && Buffered(AddEntry(es, mode, t))
  {
    var r := AddEntry(es, mode, t);
    var n := if |r| == |es| then |es| - 1 else |es|;
    assert r[..n] == es[..n];
    forall i | 0 <= i < |r| ensures r[i].mode != NoMode {
      if i < n {
        assert r[i] == r[..n][i] == es[i];
      }
    }
    forall i | 1 <= i < |r| ensures r[i - 1].mode != r[i].mode {
      assert r[i - 1] == r[..n][i - 1] == es[i - 1];
      if i < n {
        assert r[i] == r[..n][i] == es[i];
      }
    }
  }

  lemma {:induction false} AllTextSnoc(fs: seq<Fragment>, f: Fragment)
    ensures AllText(fs + [f]) == AllText(fs) + f.text
  {
    if |fs| > 0 {
      AllTextSnoc(fs[1..], f);
      assert (fs + [f])[1..] == fs[1..] + [f];
    } else {
      assert AllText([f]) == f.text + AllText([]);
    }
  }

  lemma {:induction false} AllEntryTextSnoc(es: seq<Entry>, e: Entry)
    ensures AllEntryText(es + [e]) == AllEntryText(es) + e.text
  {
    if |es| > 0 {
      AllEntryTextSnoc(es[1..], e);
      assert (es + [e])[1..] == es[1..] + [e];
    } else {
      assert AllEntryText([e]) == e.text + AllEntryText([]);
    }
  }

  /** Two appends at the same indent land in one fragment, as one append of both. */
  lemma AddFragmentTwice(fs: seq<Fragment>, indent: nat, a: seq<string>, b: seq<string>)
    ensures AddFragment(AddFragment(fs, indent, a), indent, b) == AddFragment(fs, indent, a + b)
  {
    if |fs| > 0 && fs[|fs| - 1].wrapIndent == indent {
      var init, last := fs[..|fs| - 1], fs[|fs| - 1];
      var r := init + [Fragment(indent, last.text + a)];
      assert AddFragment(fs, indent, a) == r;
      assert r[..|r| - 1] == init;
      assert AddFragment(r, indent, b) == init + [Fragment(indent, last.text + a + b)];
      assert last.text + a + b == last.text + (a + b);
    } else {
      var r := fs + [Fragment(indent, a)];
      assert AddFragment(fs, indent, a) == r;
      assert r[..|r| - 1] == fs;
      assert AddFragment(r, indent, b) == fs + [Fragment(indent, a + b)];
    }
  }

  // ---- endDict ----

  /** Visible widths of the buffered key entries, in order (helpText.js:129). */
  function KeyWidths(es: seq<Entry>, width: string -> nat): (r: seq<nat>)
    ensures forall i :: 0 <= i < |es| && es[i].mode == InKey ==> KeyWidth(es[i], width) in r
    ensures forall w :: w in r ==> exists i :: 0 <= i < |es| && es[i].mode == InKey && KeyWidth(es[i], width) == w
  {
    if |es| == 0 then []
    else
      var rest := KeyWidths(es[1..], width);
      assert forall i :: 1 <= i < |es| ==> es[i] == es[1..][i - 1];
      assert forall w :: w in rest ==> exists i :: 1 <= i < |es| && es[i].mode == InKey && KeyWidth(es[i], width) == w by {
        forall w | w in rest
          ensures exists i :: 1 <= i < |es| && es[i].mode == InKey && KeyWidth(es[i], width) == w
        {
          var i :| 0 <= i < |es[1..]| && es[1..][i].mode == InKey && KeyWidth(es[1..][i], width) == w;
          assert es[i + 1] == es[1..][i];
        }
      }
      if es[0].mode == InKey then [KeyWidth(es[0], width)] + rest else rest
  }

  /** The visible width of an entry's joined text (`style.len(d.text.join(''))`). */
  function KeyWidth(e: Entry, width: string -> nat): nat
  {
    width(Join(e.text, ""))
  }

  predicate HasMode(es: seq<Entry>, mode: Mode)
  {
    exists i :: 0 <= i < |es| && es[i].mode == mode
  }

  /** `endDict` is defined on the buffer: a value entry needs a key to align to
      (with no key, `_max` is undefined and the value indent is NaN). */
  predicate Replayable(es: seq<Entry>)
  {
    HasMode(es, InKey) || !HasMode(es, InValue)
  }

  /** The spaces that pad a key entry out to the widest key (helpText.js:136-139). */
  function KeyPad(e: Entry, maxKey: nat, width: string -> nat): seq<string>
  {
    var n := KeyWidth(e, width);
    if n < maxKey then [Spaces(maxKey - n)] else []
  }

  /** The wrap indent at which an entry is replayed: values at the widest key plus
      four, everything else at the enclosing indent. */
  function EntryIndent(e: Entry, base: nat, maxKey: nat): nat
  {
    if e.mode == InValue then maxKey + 4 else base
  }

  /** The pieces an entry is replayed as: a value behind a tab, a key followed by
      its padding, anything else verbatim. */
  function EntryPieces(e: Entry, maxKey: nat, width: string -> nat): seq<string>
  {
    match e.mode
    case InValue => [TAB] + e.text
    case InKey => e.text + KeyPad(e, maxKey, width)
    case _ => e.text
  }

  /** The fragment list after replaying the entries `es`, in order (helpText.js:131-143). */
  function Replay(fs: seq<Fragment>, es: seq<Entry>, base: nat, maxKey: nat, width: string -> nat): seq<Fragment>
  {
    if |es| == 0 then fs
    else
      var e := es[|es| - 1];
      AddFragment(Replay(fs, es[..|es| - 1], base, maxKey, width),
                  EntryIndent(e, base, maxKey), EntryPieces(e, maxKey, width))
  }

  /** A key narrower than the widest key, followed by its padding, is the key
      appended and then the padding appended. */
  lemma KeyPadded(fs: seq<Fragment>, base: nat, text: seq<string>, maxKey: nat, width: string -> nat)
    requires KeyWidth(Entry(InKey, text), width) < maxKey
    ensures AddFragment(fs, base, text + KeyPad(Entry(InKey, text), maxKey, width))
         == AddFragment(AddFragment(fs, base, text), base, [Spaces(maxKey - KeyWidth(Entry(InKey, text), width))])
  {
    var len := KeyWidth(Entry(InKey, text), width);
    assert KeyPad(Entry(InKey, text), maxKey, width) == [Spaces(maxKey - len)];
    AddFragmentTwice(fs, base, text, [Spaces(maxKey - len)]);
  }

  /** A key at least as wide as the widest key gets no padding. */
  lemma KeyUnpadded(fs: seq<Fragment>, base: nat, text: seq<string>, maxKey: nat, width: string -> nat)
    requires KeyWidth(Entry(InKey, text), width) >= maxKey
    ensures AddFragment(fs, base, text + KeyPad(Entry(InKey, text), maxKey, width)) == AddFragment(fs, base, text)
  {
    assert KeyPad(Entry(InKey, text), maxKey, width) == [];
    assert text + [] == text;
  }

  /** Replaying one more entry adds that entry's pieces at its indent. */
  lemma ReplayStep(fs: seq<Fragment>, es: seq<Entry>, i: nat, base: nat, maxKey: nat, width: string -> nat)
    requires i < |es|
    ensures Replay(fs, es[..i + 1], base, maxKey, width)
         == AddFragment(Replay(fs, es[..i], base, maxKey, width),
                        EntryIndent(es[i], base, maxKey), EntryPieces(es[i], maxKey, width))
  {
    assert es[..i + 1][..i] == es[..i];
  }

  /** The concatenated pieces of all replayed entries. */
  function DictText(es: seq<Entry>, maxKey: nat, width: string -> nat): seq<string>
  {
    if |es| == 0 then []
    else DictText(es[..|es| - 1], maxKey, width) + EntryPieces(es[|es| - 1], maxKey, width)
  }

  /** Replaying keeps adjacent fragments apart and appends exactly the entries'
      pieces, in their original order. */
  lemma {:induction false} ReplayText(fs: seq<Fragment>, es: seq<Entry>, base: nat, maxKey: nat, width: string -> nat)
    requires Separated(fs)
    ensures Separated(Replay(fs, es, base, maxKey, width))
    ensures AllText(Replay(fs, es, base, maxKey, width)) == AllText(fs) + DictText(es, maxKey, width)
  {
    if |es| > 0 {
      ReplayText(fs, es[..|es| - 1], base, maxKey, width);
      var e := es[|es| - 1];
      AddFragmentKeeps(Replay(fs, es[..|es| - 1], base, maxKey, width),
                       EntryIndent(e, base, maxKey), EntryPieces(e, maxKey, width));
    }
  }

  /** Appending leaves every fragment before index `k` alone, and the one at `k`
      keeps its indent and at most gains pieces. */
  lemma AddFragmentPrefix(fs: seq<Fragment>, k: nat, indent: nat, t: seq<string>)
    requires k < |fs|
    ensures AddFragment(fs, indent, t)[..k] == fs[..k]
    ensures AddFragment(fs, indent, t)[k].wrapIndent == fs[k].wrapIndent
    ensures fs[k].text <= AddFragment(fs, indent, t)[k].text
  {
    var r := AddFragment(fs, indent, t);
    if |r| == |fs| {
      if k < |fs| - 1 {
        assert r[..k] == r[..|fs| - 1][..k];
        assert r[k] == r[..|fs| - 1][k];
      } else {
        assert r[..k] == r[..|fs| - 1];
      }
    } else {
      assert r[..k] == r[..|fs|][..k];
      assert r[k] == r[..|fs|][k];
    }
  }

  /** Replaying only appends: the fragments before the old last one stay as they
      are, and the old last one keeps its indent and at most gains pieces. */
  lemma {:induction false} ReplayPrefix(fs: seq<Fragment>, es: seq<Entry>, base: nat, maxKey: nat, width: string -> nat)
    ensures |Replay(fs, es, base, maxKey, width)| >= |fs|
    ensures |fs| > 0 ==> Replay(fs, es, base, maxKey, width)[..|fs| - 1] == fs[..|fs| - 1]
    ensures |fs| > 0 ==> Replay(fs, es, base, maxKey, width)[|fs| - 1].wrapIndent == fs[|fs| - 1].wrapIndent
    ensures |fs| > 0 ==> fs[|fs| - 1].text <= Replay(fs, es, base, maxKey, width)[|fs| - 1].text
  {
    if |es| > 0 {
      var n := |es|;
      var prev := Replay(fs, es[..n - 1], base, maxKey, width);
      var indent, pieces := EntryIndent(es[n - 1], base, maxKey), EntryPieces(es[n - 1], maxKey, width);
      assert Replay(fs, es, base, maxKey, width) == AddFragment(prev, indent, pieces);
      ReplayPrefix(fs, es[..n - 1], base, maxKey, width);
      if |fs| > 0 {
        AddFragmentPrefix(prev, |fs| - 1, indent, pieces);
      }
    }
  }

  /** Every fragment that replaying adds, or that it extends, sits at the enclosing
      indent or at the value indent; a fragment it leaves alone is the old one. */
  lemma {:induction false} ReplayIndents(fs: seq<Fragment>, es: seq<Entry>, base: nat, maxKey: nat, width: string -> nat, j: nat)
    requires |fs| <= j + 1 && j < |Replay(fs, es, base, maxKey, width)|
    ensures || (j < |fs| && Replay(fs, es, base, maxKey, width)[j] == fs[j])
            || Replay(fs, es, base, maxKey, width)[j].wrapIndent == base
            || Replay(fs, es, base, maxKey, width)[j].wrapIndent == maxKey + 4
  {
    var n := |es|;
    var r := Replay(fs, es, base, maxKey, width);
    if n == 0 {
      assert r == fs;
    } else {
      var prev := Replay(fs, es[..n - 1], base, maxKey, width);
      var indent := EntryIndent(es[n - 1], base, maxKey);
      assert indent == base || indent == maxKey + 4;
      assert r == AddFragment(prev, indent, EntryPieces(es[n - 1], maxKey, width));
      if j + 1 == |r| {
        assert r[j].wrapIndent == indent;
      } else {
        if |r| == |prev| {
          assert r[..|prev| - 1][j] == r[j];
        } else {
          assert r[..|prev|][j] == r[j];
        }
        ReplayIndents(fs, es[..n - 1], base, maxKey, width, j);
      }
    }
  }

  /** The widest key bounds every key and is the width of one of them. */
  lemma MaxKeyWidth(es: seq<Entry>, width: string -> nat)
    requires HasMode(es, InKey)
    ensures Max(KeyWidths(es, width)).Some?
    ensures forall i :: 0 <= i < |es| && es[i].mode == InKey
              ==> KeyWidth(es[i], width) <= Max(KeyWidths(es, width)).value
    ensures exists i :: 0 <= i < |es| && es[i].mode == InKey
              && KeyWidth(es[i], width) == Max(KeyWidths(es, width)).value
  {
    var i :| 0 <= i < |es| && es[i].mode == InKey;
    assert KeyWidth(es[i], width) in KeyWidths(es, width);
  }

  /** After `endDict`, every key followed by its padding is exactly as wide as the
      widest key. */
  lemma KeyAligned(es: seq<Entry>, width: string -> nat, i: nat)
    requires i < |es| && es[i].mode == InKey
    ensures Max(KeyWidths(es, width)).Some?
    ensures var maxKey := Max(KeyWidths(es, width)).value;
            KeyWidth(es[i], width) + |Join(KeyPad(es[i], maxKey, width), "")| == maxKey
  {
    MaxKeyWidth(es, width);
  }
}
