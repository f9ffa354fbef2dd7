/**
 BuildLabelChatChanges (appstate/encode.go): collapsing repeated changes of a label into one mutation,
 which gives EncodePatch the distinct indexes it needs.
 */
module LabelChanges {
  import opened Prelude
  import opened AppStateModel
  import opened AppStateTable
  import opened AppStateEncode

  const INDEX_LABEL_ASSOCIATION_CHAT := "label_jid"

  datatype LabelChatChange = LabelChatChange(labelId: string, labeled: bool)

  function LabelIndex(labelId: string, target: string): (r: seq<string>)
    ensures |r| == 3 && r[1] == labelId
  {
    [INDEX_LABEL_ASSOCIATION_CHAT, labelId, target]
  }

  /** newLabelChatMutation; `encode` marshals the label association action. */
  function NewLabelChatMutation(encode: bool -> Bytes, target: string, change: LabelChatChange): MutationInfo {
    MutationInfo(LabelIndex(change.labelId, target), 3, encode(change.labeled))
  }

  /** The effect of a list of mutations on the values stored per index: later ones win. */
  function Effects(infos: seq<MutationInfo>): map<seq<string>, Bytes> {
    if infos == [] then map[] else Effects(infos[..|infos| - 1])[infos[|infos| - 1].index := infos[|infos| - 1].value]
  }

  /** One mutation per requested change, nothing collapsed. */
  function OneByOne(encode: bool -> Bytes, target: string, changes: seq<LabelChatChange>): (r: seq<MutationInfo>)
    ensures |r| == |changes|
  {
    if changes == [] then []
    else OneByOne(encode, target, changes[..|changes| - 1]) + [NewLabelChatMutation(encode, target, changes[|changes| - 1])]
  }

  ghost predicate DistinctInfos(infos: seq<MutationInfo>) {
    forall i, j :: 0 <= i < j < |infos| ==> infos[i].index != infos[j].index
  }

  /** The labels in order of their first change. */
  function FirstOccurrences(changes: seq<LabelChatChange>): seq<string> {
    if changes == [] then []
    else
      var front, id := FirstOccurrences(changes[..|changes| - 1]), changes[|changes| - 1].labelId;
      if id in front then front else front + [id]
  }

  lemma {:induction false} EffectsAt(infos: seq<MutationInfo>, k: nat)
    requires k < |infos| && DistinctInfos(infos)
    ensures infos[k].index in Effects(infos) && Effects(infos)[infos[k].index] == infos[k].value
  {
    if k < |infos| - 1 {
      EffectsAt(infos[..|infos| - 1], k);
    }
  }

  lemma {:induction false} EffectsOfUpdate(infos: seq<MutationInfo>, k: nat, m: MutationInfo)
    requires k < |infos| && DistinctInfos(infos) && infos[k].index == m.index
    ensures DistinctInfos(infos[k := m])
    ensures Effects(infos[k := m]) == Effects(infos)[m.index := m.value]
  {
    var n := |infos| - 1;
    if k == n {
      assert infos[k := m][..n] == infos[..n];
    } else {
      assert infos[k := m][..n] == infos[..n][k := m];
      EffectsOfUpdate(infos[..n], k, m);
      assert infos[n].index != m.index;
    }
  }

  lemma {:induction false} EffectsSnoc(infos: seq<MutationInfo>, m: MutationInfo)
    ensures Effects(infos + [m]) == Effects(infos)[m.index := m.value]
  {
  }

  /** The mutations are one per label, in the order of `ids`. */
  ghost predicate Shaped(mutations: seq<MutationInfo>, ids: seq<string>, target: string) {
    && |mutations| == |ids|
    && forall k :: 0 <= k < |ids| ==> mutations[k].index == LabelIndex(ids[k], target) && mutations[k].version == 3
  }

  /** mutationIndexes maps every label seen to its position. */
  ghost predicate Positions(positions: map<string, nat>, ids: seq<string>) {
    && (forall k :: 0 <= k < |ids| ==> ids[k] in positions)
    && (forall id :: id in positions ==> positions[id] < |ids| && ids[positions[id]] == id)
  }

  lemma {:induction false} FirstOccurrencesStep(changes: seq<LabelChatChange>, i: nat)
    requires i < |changes|
    ensures FirstOccurrences(changes[..i + 1]) ==
            if changes[i].labelId in FirstOccurrences(changes[..i]) then FirstOccurrences(changes[..i])
            else FirstOccurrences(changes[..i]) + [changes[i].labelId]
  {
    assert changes[..i + 1][..i] == changes[..i];
  }

  lemma {:induction false} OneByOneStep(encode: bool -> Bytes, target: string, changes: seq<LabelChatChange>, i: nat)
    requires i < |changes|
    ensures Effects(OneByOne(encode, target, changes[..i + 1])) ==
            var m := NewLabelChatMutation(encode, target, changes[i]);
            Effects(OneByOne(encode, target, changes[..i]))[m.index := m.value]
  {
    assert changes[..i + 1][..i] == changes[..i];
    EffectsSnoc(OneByOne(encode, target, changes[..i]), NewLabelChatMutation(encode, target, changes[i]));
  }

  /** What the loop keeps: one mutation per label seen, found through the index map. */
  ghost predicate Collapsed(mutations: seq<MutationInfo>, positions: map<string, nat>, ids: seq<string>, target: string) {
    DistinctInfos(mutations) && Shaped(mutations, ids, target) && Positions(positions, ids)
  }

  lemma {:induction false} ReplaceKeepsCollapsed(mutations: seq<MutationInfo>, positions: map<string, nat>, ids: seq<string>, target: string,
                              m: MutationInfo, id: string)
    requires Collapsed(mutations, positions, ids, target) && id in positions && m.index == LabelIndex(id, target) && m.version == 3
    ensures id in ids
    ensures Collapsed(mutations[positions[id] := m], positions, ids, target)
    ensures Effects(mutations[positions[id] := m]) == Effects(mutations)[m.index := m.value]
  {
    assert ids[positions[id]] == id;
    EffectsOfUpdate(mutations, positions[id], m);
  }

  lemma {:induction false} AppendKeepsCollapsed(mutations: seq<MutationInfo>, positions: map<string, nat>, ids: seq<string>, target: string,
                             m: MutationInfo, id: string)
    requires Collapsed(mutations, positions, ids, target) && id !in positions && m.index == LabelIndex(id, target) && m.version == 3
    ensures id !in ids
    ensures Collapsed(mutations + [m], positions[id := |mutations|], ids + [id], target)
    ensures Effects(mutations + [m]) == Effects(mutations)[m.index := m.value]
  {
    EffectsSnoc(mutations, m);
    NewLabelIsDistinct(mutations, ids, target, m, id);
    ShapedAppend(mutations, ids, target, m, id);
    PositionsAppend(positions, ids, id);
  }

  lemma {:induction false} ShapedAppend(mutations: seq<MutationInfo>, ids: seq<string>, target: string, m: MutationInfo, id: string)
    requires Shaped(mutations, ids, target) && m.index == LabelIndex(id, target) && m.version == 3
    ensures Shaped(mutations + [m], ids + [id], target)
  {
  }

  lemma {:induction false} PositionsAppend(positions: map<string, nat>, ids: seq<string>, id: string)
    requires Positions(positions, ids) && id !in positions
    ensures Positions(positions[id := |ids|], ids + [id])
  {
  }

  method BuildLabelChatChanges(encode: bool -> Bytes, target: string, changes: seq<LabelChatChange>) returns (mutations: seq<MutationInfo>)
    ensures DistinctInfos(mutations)
    ensures Effects(mutations) == Effects(OneByOne(encode, target, changes))
    ensures Shaped(mutations, FirstOccurrences(changes), target)
  {
    mutations := [];
    var mutationIndexes: map<string, nat> := map[];
    ghost var ids: seq<string> := [];
    for i := 0 to |changes|
      invariant ids == FirstOccurrences(changes[..i])
      invariant Collapsed(mutations, mutationIndexes, ids, target)
      invariant Effects(mutations) == Effects(OneByOne(encode, target, changes[..i]))
    {
      var change := changes[i];
      var mutation := NewLabelChatMutation(encode, target, change);
      FirstOccurrencesStep(changes, i);
      OneByOneStep(encode, target, changes, i);
      if change.labelId in mutationIndexes {
        ReplaceKeepsCollapsed(mutations, mutationIndexes, ids, target, mutation, change.labelId);
        mutations := mutations[mutationIndexes[change.labelId] := mutation];
      } else {
        AppendKeepsCollapsed(mutations, mutationIndexes, ids, target, mutation, change.labelId);
        mutationIndexes := mutationIndexes[change.labelId := |mutations|];
        mutations := mutations + [mutation];
        ids := ids + [change.labelId];
      }
    }
    assert changes[..|changes|] == changes;
  }

  lemma {:induction false} NewLabelIsDistinct(mutations: seq<MutationInfo>, ids: seq<string>, target: string, m: MutationInfo, id: string)
    requires DistinctInfos(mutations) && Shaped(mutations, ids, target) && id !in ids
    requires m.index == LabelIndex(id, target)
    ensures DistinctInfos(mutations + [m])
  {
  }

  /** Distinct indexes become distinct index MACs wherever the keyed digest does not collide on them. */
  lemma {:induction false} DistinctInfosEncodeDistinct(env: Env, keys: Keys, keyId: Bytes, infos: seq<MutationInfo>, timestamp: int, ivs: seq<IV>)
    requires |ivs| == |infos| && DistinctInfos(infos)
    requires forall i, j :: 0 <= i < |infos| && 0 <= j < |infos| && infos[i].index != infos[j].index ==>
               env.hmac256(keys.index, env.marshalIndex(infos[i].index)) != env.hmac256(keys.index, env.marshalIndex(infos[j].index))
    ensures DistinctIndexes(EncodeMutations(env, keys, keyId, infos, timestamp, ivs))
    ensures forall i :: 0 <= i < |infos| ==> EncodeMutations(env, keys, keyId, infos, timestamp, ivs)[i].indexBlob ==
                                             env.hmac256(keys.index, env.marshalIndex(infos[i].index))
  {
    if infos != [] {
      var n := |infos| - 1;
      DistinctInfosEncodeDistinct(env, keys, keyId, infos[..n], timestamp, ivs[..n]);
    }
  }
}
