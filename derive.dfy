/**
 * Variant tags of the `#[derive(Type)]` macro (derive/src/lib.rs) for a type
 * with more than one variant. A variant is described here only by whether
 * it carries a payload (`bindings().len() != 0`).
 *
 * The generated encoder numbers the variants with two counters, one over
 * the payload variants and one over the payload-less ones; the generated
 * decoder compares the tag it reads with one counter over all variants in
 * declaration order.
 */
module Derive {
  import opened Base

  /** The number of variants before `i` whose payload flag is `flag`. */
  function CountBefore(payload: seq<bool>, i: nat, flag: bool): nat
    requires i <= |payload|
  {
    if i == 0 then 0
    else CountBefore(payload, i - 1, flag) + (if payload[i - 1] == flag then 1 else 0)
  }

  /**
   * The tag the generated `encode_bin` writes for variant `i`, as written:
   * `bindings_index` for a payload variant, `non_bindings_index` otherwise.
   */
  function AsWrittenTag(payload: seq<bool>, i: nat): nat
    requires i < |payload|
  {
    CountBefore(payload, i, payload[i])
  }

  /**
   * The variant the generated `decode_bin` selects for tag `t`, if any:
   * the `if find == index` checks, one per variant, with `find` counting
   * up from 0. It is the variant whose declaration index is the tag.
   */
  function DecodedVariant(count: nat, t: nat): (r: Option<nat>)
    ensures r.Some? <==> t < count
    ensures r.Some? ==> r.value == t
  {
    FindFrom(count, t, 0)
  }

  /** The checks from variant `find` onwards. */
  function FindFrom(count: nat, t: nat, find: nat): (r: Option<nat>)
    requires find <= count
    ensures r.Some? ==> find <= r.value < count && r.value == t
    ensures find <= t < count ==> r.Some?
    decreases count - find
  {
    if find == count then None
    else if find == t then Some(find)
    else FindFrom(count, t, find + 1)
  }

  /** All variants carry a payload, or none does. */
  predicate Uniform(payload: seq<bool>) {
    forall j | 0 <= j < |payload| :: payload[j] == payload[0]
  }

  lemma {:induction false} CountBeforeUniform(payload: seq<bool>, i: nat)
    requires Uniform(payload) && i <= |payload| && |payload| > 0
    ensures CountBefore(payload, i, payload[0]) == i
  {
    if i > 0 {
      CountBeforeUniform(payload, i - 1);
    }
  }

  /**
   * Encoder and decoder agree on every variant exactly when the variants
   * are uniform: then variant `i` is written with tag `i`, the variant the
   * decoder selects for it.
   */
  lemma TagsAgreeIffUniform(payload: seq<bool>)
    ensures (forall i | 0 <= i < |payload| :: AsWrittenTag(payload, i) == i) <==> Uniform(payload)
  {
    if Uniform(payload) {
      forall i | 0 <= i < |payload| ensures AsWrittenTag(payload, i) == i {
        CountBeforeUniform(payload, i);
      }
    } else {
      var k := FirstOther(payload);
      MixedCollide(payload, k);
    }
  }

  /** The first variant whose payload flag differs from variant 0's. */
  function FirstOther(payload: seq<bool>): (k: nat)
    requires !Uniform(payload)
    ensures 0 < k < |payload| && payload[k] != payload[0]
    ensures forall j | 0 <= j < k :: payload[j] == payload[0]
  {
    FirstOtherFrom(payload, 1)
  }

  function FirstOtherFrom(payload: seq<bool>, from: nat): (k: nat)
    requires 0 < from <= |payload|
    requires forall j | 0 <= j < from :: payload[j] == payload[0]
    requires !Uniform(payload)
    ensures from <= k < |payload| && payload[k] != payload[0]
    ensures forall j | 0 <= j < k :: payload[j] == payload[0]
    decreases |payload| - from
  {
    if payload[from] != payload[0] then from else FirstOtherFrom(payload, from + 1)
  }

  lemma {:induction false} CountBeforeNone(payload: seq<bool>, i: nat, flag: bool)
    requires i <= |payload|
    requires forall j | 0 <= j < i :: payload[j] != flag
    ensures CountBefore(payload, i, flag) == 0
  {
    if i > 0 {
      CountBeforeNone(payload, i - 1, flag);
    }
  }

  /**
   * In a type that mixes payload and payload-less variants, variant 0 and
   * the first variant of the other kind are both written with tag 0, and
   * the decoder maps tag 0 to variant 0.
   */
  lemma MixedCollide(payload: seq<bool>, k: nat)
    requires 0 < k < |payload| && payload[k] != payload[0]
    requires forall j | 0 <= j < k :: payload[j] == payload[0]
    ensures AsWrittenTag(payload, 0) == 0 && AsWrittenTag(payload, k) == 0
    ensures DecodedVariant(|payload|, AsWrittenTag(payload, k)) == Some(0)
  {
    CountBeforeNone(payload, k, payload[k]);
  }
}
