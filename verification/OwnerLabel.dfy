/** Kubernetes labels for owner names (app/kubernetes/helpers/commonHelper.js). */
module OwnerLabel {

  const LABEL_LENGTH := 63

  predicate IsAlphanumeric(c: char) {
    'a' <= c <= 'z' || 'A' <= c <= 'Z' || '0' <= c <= '9'
  }

  predicate IsPunctuation(c: char) {
    c == '-' || c == '_' || c == '.'
  }

  predicate IsAllowed(c: char) {
    IsAlphanumeric(c) || IsPunctuation(c)
  }

  function Dotted(s: string): (r: string)
    ensures |r| == |s|
  {
    seq(|s|, i requires 0 <= i < |s| => if IsAllowed(s[i]) then s[i] else '.')
  }

  function Truncated(s: string): string {
    if |s| <= LABEL_LENGTH then s else s[..LABEL_LENGTH]
  }

  function WithoutLeading(s: string): string {
    if s != "" && IsPunctuation(s[0]) then WithoutLeading(s[1..]) else s
  }

  function WithoutTrailing(s: string): string {
    if s != "" && IsPunctuation(s[|s| - 1]) then WithoutTrailing(s[..|s| - 1]) else s
  }

  function OwnerToLabel(owner: string): string {
    WithoutTrailing(WithoutLeading(Truncated(Dotted(owner))))
  }

  /** A label value, by "Syntax and character set" of the Kubernetes documentation of labels. */
  predicate IsLabelValue(s: string) {
    && |s| <= LABEL_LENGTH
    && (forall i | 0 <= i < |s| :: IsAllowed(s[i]))
    && (s != "" ==> IsAlphanumeric(s[0]) && IsAlphanumeric(s[|s| - 1]))
  }

  lemma {:induction false} LeadingGone(s: string) returns (n: nat)
    ensures n <= |s| && WithoutLeading(s) == s[n..]
    ensures forall i | 0 <= i < n :: IsPunctuation(s[i])
    ensures n < |s| ==> !IsPunctuation(s[n])
  {
    n := 0;
    if s != "" && IsPunctuation(s[0]) {
      var m := LeadingGone(s[1..]);
      n := m + 1;
      assert forall i | 1 <= i < n :: s[i] == s[1..][i - 1];
    }
  }

  lemma {:induction false} TrailingGone(s: string) returns (n: nat)
    ensures n <= |s| && WithoutTrailing(s) == s[..n]
    ensures forall i | n <= i < |s| :: IsPunctuation(s[i])
    ensures n > 0 ==> !IsPunctuation(s[n - 1])
  {
    n := |s|;
    if s != "" && IsPunctuation(s[|s| - 1]) {
      n := TrailingGone(s[..|s| - 1]);
    }
  }

  /** The label is the stretch of the dotted, truncated name from its first alphanumeric character to
      its last; it is empty only when there is none. */
  lemma LabelIsInnerStretch(owner: string) returns (from: nat, to: nat)
    ensures var s := Truncated(Dotted(owner));
            && from <= to <= |s|
            && OwnerToLabel(owner) == s[from..to]
            && (forall i | 0 <= i < |s| && !(from <= i < to) :: IsPunctuation(s[i]))
    ensures IsLabelValue(OwnerToLabel(owner))
  {
    var s := Truncated(Dotted(owner));
    from := LeadingGone(s);
    var rest := s[from..];
    var n := TrailingGone(rest);
    to := from + n;
    assert rest[..n] == s[from..to];
    forall i | 0 <= i < |s| && !(from <= i < to)
      ensures IsPunctuation(s[i])
    {
      if i >= to {
        assert s[i] == rest[i - from];
      }
    }
    assert forall i | 0 <= i < |s| :: IsAllowed(s[i]);
  }

  /** A name is its own label exactly if it is a label value already. */
  lemma UnchangedIffLabel(owner: string)
    ensures OwnerToLabel(owner) == owner <==> IsLabelValue(owner)
  {
    var from, to := LabelIsInnerStretch(owner);
    if IsLabelValue(owner) {
      assert Dotted(owner) == owner;
    }
  }

  lemma Idempotent(owner: string)
    ensures OwnerToLabel(OwnerToLabel(owner)) == OwnerToLabel(owner)
  {
    var from, to := LabelIsInnerStretch(owner);
    UnchangedIffLabel(OwnerToLabel(owner));
  }

  /** Character by character: the label is a stretch of the first 63 characters of the owner, with a dot
      for each character that is neither alphanumeric nor a dash, an underscore or a dot; around it there
      is nothing alphanumeric. */
  lemma LabelIs(owner: string) returns (from: nat, to: nat)
    ensures from <= to <= |owner| && to <= 63
    ensures |OwnerToLabel(owner)| == to - from
    ensures forall i | from <= i < to ::
              var c := owner[i];
              OwnerToLabel(owner)[i - from] ==
              if 'a' <= c <= 'z' || 'A' <= c <= 'Z' || '0' <= c <= '9' || c in ['-', '_', '.'] then c else '.'
    ensures forall i | 0 <= i < |owner| && i < 63 && !(from <= i < to) ::
              var c := owner[i];
              !('a' <= c <= 'z' || 'A' <= c <= 'Z' || '0' <= c <= '9')
    ensures from < to ==> IsAlphanumeric(owner[from]) && IsAlphanumeric(owner[to - 1])
  {
    from, to := LabelIsInnerStretch(owner);
    var s := Truncated(Dotted(owner));
    assert forall i | 0 <= i < |s| :: s[i] == if IsAllowed(owner[i]) then owner[i] else '.';
    if from < to {
      assert OwnerToLabel(owner)[0] == s[from] && OwnerToLabel(owner)[to - from - 1] == s[to - 1];
    }
  }
}
