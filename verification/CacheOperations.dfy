/** The operations of a cache, whatever its strategy: shared/include/Poco/AbstractCache.h. */
module CacheOperations {

  datatype Op<K, V> = Add(key: K, value: V) | Update(key: K, value: V) | Get(key: K) | Remove(key: K)
                    | Clear | Replace
}
