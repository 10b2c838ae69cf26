/**
 The note editor's input handler: the change between the shared text and the editor is sent as one
 deletion and one insertion.  Texts are sequences of UTF-16 code units, as JavaScript indexes them.
 */
module NoteSplice {
  type Unit = bv16
  type Text = seq<Unit>

  /** The text after removing `count` units at `at` and inserting there. */
  function Spliced(s: Text, at: nat, count: nat, inserted: Text): Text
    requires at + count <= |s|
  {
    s[..at] + inserted + s[at + count..]
  }

  /** The shared text, edited in place. */
  class SharedText {
    var content: Text

    constructor (text: Text)
      ensures content == text
    {
      content := text;
    }

    method Delete(at: nat, count: nat)
      requires at + count <= |content|
      modifies this
      ensures content == Spliced(old(content), at, count, [])
    {
      content := content[..at] + content[at + count..];
    }

    method Insert(at: nat, inserted: Text)
      requires at <= |content|
      modifies this
      ensures content == Spliced(old(content), at, 0, inserted)
    {
      content := content[..at] + inserted + content[at..];
    }

    /**
     The `input` handler.  The shared text becomes the editor's, cut at the limit; what is sent
     neither overlaps nor could be shorter: every single replacement with the same effect removes and
     inserts at least as much.
     */
    method OnInput(value: Text, maxLength: nat) returns (editor: Text, at: nat, removed: nat, inserted: Text)
      modifies this
      ensures editor == value[..if |value| < maxLength then |value| else maxLength]
      ensures content == editor
      ensures at + removed <= |old(content)| && content == Spliced(old(content), at, removed, inserted)
      ensures NoSmallerSplice(old(content), editor, removed, |inserted|)
    {
      hide NoSmallerSplice, Spliced;
      editor := if |value| < maxLength then value else value[..maxLength];
      var prefix, suffix := Diff(content, editor);
      var current, next := content, editor;
      at := prefix;
      removed := |content| - prefix - suffix;
      inserted := next[prefix..|next| - suffix];
      SpliceInTwo(current, prefix, removed, inserted);
      if removed != 0 {
        Delete(prefix, removed);
      }
      if inserted != [] {
        Insert(prefix, inserted);
      }
      SpliceGivesNext(current, next, prefix, suffix);
      SpliceIsLeast(current, next, prefix, suffix);
    }
  }

  /** The lengths of what the two ends share; the suffix stops where the prefix begins. */
  ghost predicate Ends(a: Text, b: Text, prefix: nat, suffix: nat) {
    && prefix + suffix <= |a| && prefix + suffix <= |b|
    && a[..prefix] == b[..prefix] && a[|a| - suffix..] == b[|b| - suffix..]
    && (prefix < |a| && prefix < |b| ==> a[prefix] != b[prefix])
    && (prefix + suffix < |a| && prefix + suffix < |b| ==> a[|a| - 1 - suffix] != b[|b| - 1 - suffix])
  }

  lemma PrefixGrows(a: Text, b: Text, prefix: nat)
    requires prefix < |a| && prefix < |b| && a[..prefix] == b[..prefix] && a[prefix] == b[prefix]
    ensures a[..prefix + 1] == b[..prefix + 1]
  {
    assert a[..prefix + 1] == a[..prefix] + [a[prefix]] && b[..prefix + 1] == b[..prefix] + [b[prefix]];
  }

  lemma SuffixGrows(a: Text, b: Text, suffix: nat)
    requires suffix < |a| && suffix < |b| && a[|a| - suffix..] == b[|b| - suffix..]
    requires a[|a| - 1 - suffix] == b[|b| - 1 - suffix]
    ensures a[|a| - (suffix + 1)..] == b[|b| - (suffix + 1)..]
  {
    assert a[|a| - (suffix + 1)..] == [a[|a| - 1 - suffix]] + a[|a| - suffix..];
    assert b[|b| - (suffix + 1)..] == [b[|b| - 1 - suffix]] + b[|b| - suffix..];
  }

  method Diff(current: Text, next: Text) returns (prefix: nat, suffix: nat)
    ensures Ends(current, next, prefix, suffix)
  {
    prefix := 0;
    while prefix < |current| && prefix < |next| && current[prefix] == next[prefix]
      invariant prefix <= |current| && prefix <= |next| && current[..prefix] == next[..prefix]
    {
      PrefixGrows(current, next, prefix);
      prefix := prefix + 1;
    }
    suffix := 0;
    while suffix < |current| - prefix && suffix < |next| - prefix
            && current[|current| - 1 - suffix] == next[|next| - 1 - suffix]
      invariant prefix + suffix <= |current| && prefix + suffix <= |next|
      invariant current[|current| - suffix..] == next[|next| - suffix..]
    {
      SuffixGrows(current, next, suffix);
      suffix := suffix + 1;
    }
  }

  /** Removing and then inserting, each only if there is something to do. */
  lemma SpliceInTwo(s: Text, at: nat, count: nat, inserted: Text)
    requires at + count <= |s|
    ensures |Spliced(s, at, count, [])| == |s| - count
    ensures Spliced(s, at, 0, []) == s
            && Spliced(Spliced(s, at, count, []), at, 0, inserted) == Spliced(s, at, count, inserted)
  {
  }

  lemma SpliceGivesNext(current: Text, next: Text, prefix: nat, suffix: nat)
    requires Ends(current, next, prefix, suffix)
    ensures Spliced(current, prefix, |current| - prefix - suffix, next[prefix..|next| - suffix]) == next
  {
    assert next == next[..prefix] + next[prefix..|next| - suffix] + next[|next| - suffix..];
  }

  /** Every contiguous replacement turning `current` into `next` removes and inserts at least so much. */
  ghost predicate NoSmallerSplice(current: Text, next: Text, removed: nat, inserted: nat) {
    forall p: nat, r: nat, t: Text | p + r <= |current| && Spliced(current, p, r, t) == next ::
      removed <= r && inserted <= |t|
  }

  lemma SpliceIsLeast(current: Text, next: Text, prefix: nat, suffix: nat)
    requires Ends(current, next, prefix, suffix)
    ensures NoSmallerSplice(current, next, |current| - prefix - suffix, |next| - prefix - suffix)
  {
    forall p: nat, r: nat, t: Text | p + r <= |current| && Spliced(current, p, r, t) == next
      ensures |current| - prefix - suffix <= r && |next| - prefix - suffix <= |t|
    {
      SharedEndsBounded(current, next, prefix, suffix, p, r, t);
    }
  }

  /** A replacement leaves a common prefix of `p` and a common suffix of `q` units, and no more fit. */
  lemma SharedEndsBounded(current: Text, next: Text, prefix: nat, suffix: nat, p: nat, r: nat, t: Text)
    requires Ends(current, next, prefix, suffix)
    requires p + r <= |current| && Spliced(current, p, r, t) == next
    ensures p + (|current| - p - r) <= prefix + suffix
  {
    var q := |current| - p - r;
    assert |next| == p + |t| + q;
    assert forall i | 0 <= i < p :: next[i] == current[i];
    var a, b := next[|next| - q..], current[|current| - q..];
    assert a == b;
    assert suffix < q ==> a[q - 1 - suffix] == b[q - 1 - suffix];
  }
}
