/**
 * The resource allocators of ProjectService: `_get_next_port` and
 * `_get_next_redis_db`, both computed from the current project list.
 */
module Allocator {
  import opened Wrappers
  import opened ProjectModel

  /** Ports tried first, in this order. */
  const CommonPorts: seq<int> := [3000, 3001, 3002, 3003, 3004, 3005]

  /** The port handed out when no project holds one. */
  const DefaultPort: int := 3000

  /** MIN_REDIS_DB and MAX_REDIS_DB of utils/config.py. */
  const MinRedisDb: int := 0
  const MaxRedisDb: int := 999

  /** `{p.port for p in projects}` */
  function UsedPorts(projects: seq<Project>): set<int> {
    set p | p in projects :: p.port
  }

  /** `{p.redis_db for p in projects if p.redis_db is not None}` */
  function UsedRedisDbs(projects: seq<Project>): set<int> {
    set p | p in projects && p.redisDb.Some? :: p.redisDb.value
  }

  /** `max(used_ports)` */
  function MaxPort(projects: seq<Project>): (m: int)
    requires projects != []
    ensures m in UsedPorts(projects)
    ensures forall q :: q in UsedPorts(projects) ==> q <= m
  {
    if |projects| == 1 then projects[0].port
    else
      var rest := MaxPort(projects[1..]);
      assert UsedPorts(projects) == {projects[0].port} + UsedPorts(projects[1..]) by {
        assert projects == [projects[0]] + projects[1..];
      }
      if projects[0].port > rest then projects[0].port else rest
  }

  /** Index of the first of `candidates[i..]` that is not in `used`. */
  function FirstFree(candidates: seq<int>, used: set<int>, i: nat): (r: Option<nat>)
    requires i <= |candidates|
    decreases |candidates| - i
    ensures r.Some? ==> i <= r.value < |candidates| && candidates[r.value] !in used
    ensures forall j :: i <= j < (if r.Some? then r.value else |candidates|) ==> candidates[j] in used
  {
    if i == |candidates| then None
    else if candidates[i] !in used then Some(i)
    else FirstFree(candidates, used, i + 1)
  }

  /**
   * `_get_next_port`: 3000 when no port is in use; otherwise the first of
   * 3000..3005 that is free, or one more than the highest port in use.
   */
  function NextPort(projects: seq<Project>): (r: int)
    ensures r !in UsedPorts(projects)
    ensures UsedPorts(projects) == {} ==> r == DefaultPort
    ensures forall k :: 0 <= k < |CommonPorts| && CommonPorts[k] < r ==> CommonPorts[k] in UsedPorts(projects)
    ensures r in CommonPorts <==> exists k :: 0 <= k < |CommonPorts| && CommonPorts[k] !in UsedPorts(projects)
    ensures r !in CommonPorts ==> projects != [] && r == MaxPort(projects) + 1
  {
    var used := UsedPorts(projects);
    if |used| == 0 then DefaultPort
    else
      match FirstFree(CommonPorts, used, 0)
      case Some(k) => CommonPorts[k]
      case None =>
        assert projects != [] by {
          assert projects == [] ==> used == {};
        }
        assert 3005 in used by { assert CommonPorts[5] == 3005; }
        MaxPort(projects) + 1
  }

  /** Why `_get_next_redis_db` raises `ValueError`. */
  datatype AllocError = NoRedisDbAvailable(minDb: int, maxDb: int)

  /**
   * `_get_next_redis_db`: `MinRedisDb` when no project has a Redis DB; otherwise
   * the smallest value of `MinRedisDb..MaxRedisDb` no project uses, or
   * `NoRedisDbAvailable` when every value of that range is taken.
   */
  method NextRedisDb(projects: seq<Project>) returns (r: Result<int, AllocError>)
    ensures UsedRedisDbs(projects) == {} ==> r == Success(MinRedisDb)
    ensures UsedRedisDbs(projects) != {} && r.Success? ==>
              && MinRedisDb <= r.value <= MaxRedisDb
              && r.value !in UsedRedisDbs(projects)
              && forall d :: MinRedisDb <= d < r.value ==> d in UsedRedisDbs(projects)
    ensures r.Failure? <==>
              UsedRedisDbs(projects) != {} && forall d :: MinRedisDb <= d <= MaxRedisDb ==> d in UsedRedisDbs(projects)
    ensures r.Failure? ==> r.error == NoRedisDbAvailable(MinRedisDb, MaxRedisDb)
  {
    var used := UsedRedisDbs(projects);
    if |used| == 0 {
      return Success(MinRedisDb);
    }
    var current := MinRedisDb;
    while current <= MaxRedisDb
      invariant MinRedisDb <= current <= MaxRedisDb + 1
      invariant forall d :: MinRedisDb <= d < current ==> d in used
      decreases MaxRedisDb - current
    {
      if current !in used {
        return Success(current);
      }
      current := current + 1;
    }
    return Failure(NoRedisDbAvailable(MinRedisDb, MaxRedisDb));
  }
}
