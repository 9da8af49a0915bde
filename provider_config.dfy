/**
 * StateProviderConfig: the name of a state provider, its optional instance
 * name and its parameters.  Name and instance are fixed at construction;
 * the parameter map can be replaced.
 */
module ProviderConfigs {
  import opened Wrappers
  import opened ParamValues

  /** std::out_of_range thrown by the map's at() for a missing key. */
  datatype OutOfRange = OutOfRange(key: string)

  class StateProviderConfig {
    const name: string
    const instance: string
    var params: map<string, ParamValue>

    /** The constructor stores name and instance verbatim and starts with no parameters. */
    constructor(name: string, instance: string)
      ensures this.name == name && this.instance == instance && params == map[]
    {
      this.name := name;
      this.instance := instance;
      params := map[];
    }

    /** hasInstanceName: the instance name is not empty. */
    predicate HasInstanceName()
    {
      instance != ""
    }

    /** hasParam: the key is in the parameter map. */
    predicate HasParam(key: string)
      reads this
    {
      key in params
    }

    /** operator[]: the parameter under key, or the exception of at() when there is none. */
    function Get(key: string): (r: Result<ParamValue, OutOfRange>)
      reads this
      ensures r.Success? <==> HasParam(key)
      ensures r.Success? ==> r.value == params[key]
      ensures r.Failure? ==> r.error == OutOfRange(key)
    {
      if key in params then Success(params[key]) else Failure(OutOfRange(key))
    }

    /** setParams: the parameters are replaced wholesale; name and instance cannot change. */
    method SetParams(p: map<string, ParamValue>)
      modifies this
      ensures params == p
      ensures forall k :: HasParam(k) <==> k in p
    {
      params := p;
    }

    /** The mutable getParams() used to add one parameter. */
    method PutParam(key: string, value: ParamValue)
      modifies this
      ensures params == old(params)[key := value]
      ensures Get(key) == Success(value)
      ensures forall k | k != key :: Get(k) == old(Get(k))
    {
      params := params[key := value];
    }
  }
}
